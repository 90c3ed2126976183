/** The countdown shown beside the login widget: the time left until a fixed
    release instant, broken into whole days, hours, minutes and seconds, and
    clamped to zero once the instant has passed. Instants are integer
    milliseconds since the epoch, as JavaScript's `Date.prototype.getTime`
    returns them. */
module Countdown {
  import opened Wrappers

  const SecondMs: int := 1000
  const MinuteMs: int := 60 * SecondMs
  const HourMs: int := 60 * MinuteMs
  const DayMs: int := 24 * HourMs

  /** The `TimeRemaining` record the screen keeps and displays. */
  datatype TimeRemaining = TimeRemaining(days: int, hours: int, minutes: int, seconds: int)

  /** The record the screen starts from and falls back to once the release has passed. */
  const Zero := TimeRemaining(0, 0, 0, 0)

  /** Every field is non-negative and every field below days is within its unit. */
  predicate Normalized(t: TimeRemaining) {
    && 0 <= t.days
    && 0 <= t.hours < 24
    && 0 <= t.minutes < 60
    && 0 <= t.seconds < 60
  }

  /** The milliseconds a record stands for. */
  function TotalMs(t: TimeRemaining): int {
    t.days * DayMs + t.hours * HourMs + t.minutes * MinuteMs + t.seconds * SecondMs
  }

  /** `difference` rounded down to a whole number of seconds, for a non-negative difference. */
  function WholeSecondsMs(difference: int): (r: int)
    requires difference >= 0
    ensures 0 <= r <= difference < r + SecondMs
    ensures r % SecondMs == 0
  {
    difference - difference % SecondMs
  }

  /** The decomposition of the difference `release - now`: zero unless the difference
      is positive, otherwise each unit taken by flooring the remainder of the next
      larger unit. */
  function Decompose(difference: int): (r: TimeRemaining)
    ensures Normalized(r)
    ensures difference <= 0 ==> r == Zero
    ensures difference > 0 ==> r.days == difference / DayMs
  {
    if difference > 0 then
      TimeRemaining(
        difference / DayMs,
        (difference % DayMs) / HourMs,
        (difference % HourMs) / MinuteMs,
        (difference % MinuteMs) / SecondMs)
    else
      Zero
  }

  /** One evaluation of the countdown at instant `now`. An unparsable release date
      (`None`) makes the difference NaN, which is not greater than zero, so the
      result is the zero record. */
  function CalculateTimeRemaining(release: Option<int>, now: int): (r: TimeRemaining)
    ensures Normalized(r)
    ensures release.None? ==> r == Zero
    ensures release.Some? ==> r == Decompose(release.value - now)
  {
    match release
    case None => Zero
    case Some(instant) => Decompose(instant - now)
  }

  /** Adding whole multiples of `m` does not change the remainder modulo `m`. */
  lemma ModAddMultiple(k: int, m: int, a: int)
    requires m > 0
    ensures (k * m + a) % m == a % m
  {
    var q, r := a / m, a % m;
    assert a == q * m + r;
    assert k * m + a == (k + q) * m + r;
    DivModUnique(k * m + a, m, k + q, r);
  }

  /** Euclidean division is determined by its quotient and remainder. */
  lemma DivModUnique(n: int, m: int, q: int, r: int)
    requires m > 0 && 0 <= r < m && n == q * m + r
    ensures n / m == q && n % m == r
  {
    var q', r' := n / m, n % m;
    assert n == q' * m + r' && 0 <= r' < m;
    assert (q - q') * m == r' - r;
    MultipleBound(q - q', m);
  }

  /** A non-zero multiple of `m` is at least `m` away from zero. */
  lemma MultipleBound(x: int, m: int)
    requires m > 0
    ensures x == 0 || x * m >= m || x * m <= -m
  {
    if x >= 1 {
      assert x * m == (x - 1) * m + m;
      assert (x - 1) * m >= 0;
    } else if x <= -1 {
      assert x * m == (x + 1) * m - m;
      assert (x + 1) * m <= 0;
    }
  }

  /** The remainder modulo a unit is the remainder modulo any smaller unit that divides it,
      taken after the larger one. */
  lemma ModOfMod(n: int, k: int, m: int)
    requires m > 0 && k > 0
    ensures (n % (k * m)) % m == n % m
  {
    var q := n / (k * m);
    assert n == q * (k * m) + n % (k * m);
    assert q * (k * m) == (q * k) * m;
    ModAddMultiple(q * k, m, n % (k * m));
  }

  /** Round trip: the four fields add back up to the difference with its sub-second
      part dropped. */
  lemma DecomposeRoundTrip(difference: int)
    requires difference > 0
    ensures TotalMs(Decompose(difference)) == WholeSecondsMs(difference)
  {
    var d := difference;
    var t := Decompose(d);
    var a := d % DayMs;
    assert d == t.days * DayMs + a;
    ModOfMod(d, 24, HourMs);
    assert a % HourMs == d % HourMs;
    assert a == t.hours * HourMs + d % HourMs;
    ModOfMod(d, 60, MinuteMs);
    assert d % HourMs == t.minutes * MinuteMs + d % MinuteMs;
    ModOfMod(d, 60, SecondMs);
    assert d % MinuteMs == t.seconds * SecondMs + d % SecondMs;
  }

  /** A normalized record is determined by the milliseconds it stands for: each field
      is what the decomposition's floor division recovers from the total. */
  lemma FieldsOfTotal(t: TimeRemaining)
    requires Normalized(t)
    ensures t.days == TotalMs(t) / DayMs
    ensures t.hours == (TotalMs(t) % DayMs) / HourMs
    ensures t.minutes == (TotalMs(t) % HourMs) / MinuteMs
    ensures t.seconds == (TotalMs(t) % MinuteMs) / SecondMs
  {
    var total := TotalMs(t);
    var belowMinute := t.seconds * SecondMs;
    var belowHour := t.minutes * MinuteMs + belowMinute;
    var belowDay := t.hours * HourMs + belowHour;
    DivModUnique(total, DayMs, t.days, belowDay);
    DivModUnique(belowDay, HourMs, t.hours, belowHour);
    DivModUnique(total, HourMs, t.days * 24 + t.hours, belowHour);
    DivModUnique(belowHour, MinuteMs, t.minutes, belowMinute);
    DivModUnique(total, MinuteMs, (t.days * 24 + t.hours) * 60 + t.minutes, belowMinute);
    DivModUnique(belowMinute, SecondMs, t.seconds, 0);
  }

  /** The inverse round trip: decomposing the total of a normalized record gives the
      record back. */
  lemma RecomposeRoundTrip(t: TimeRemaining)
    requires Normalized(t)
    ensures Decompose(TotalMs(t)) == t
  {
    FieldsOfTotal(t);
  }

  /** The decomposition is the only normalized record whose total is the difference
      with its sub-second part dropped. */
  lemma DecomposeUnique(difference: int, t: TimeRemaining)
    requires difference > 0 && Normalized(t)
    ensures TotalMs(t) == WholeSecondsMs(difference) <==> Decompose(difference) == t
  {
    DecomposeRoundTrip(difference);
    if TotalMs(t) == WholeSecondsMs(difference) {
      FieldsOfTotal(t);
      FieldsOfTotal(Decompose(difference));
    }
  }

  /** A positive difference under one second shows as all zeros. */
  lemma SubSecondIsZero(difference: int)
    requires 0 < difference < SecondMs
    ensures Decompose(difference) == Zero
  {
  }

  /** 90 061 000 ms is one day, one hour, one minute and one second. */
  lemma OneOfEachUnit()
    ensures Decompose(90_061_000) == TimeRemaining(1, 1, 1, 1)
  {
  }

  /** The milliseconds an evaluation at `now` shows. */
  function ShownMs(release: Option<int>, now: int): (r: int)
    ensures r >= 0
    ensures r % SecondMs == 0
  {
    var t := CalculateTimeRemaining(release, now);
    assert TotalMs(t) % SecondMs == 0 by {
      DivModUnique(TotalMs(t), SecondMs, ((t.days * 24 + t.hours) * 60 + t.minutes) * 60 + t.seconds, 0);
    }
    TotalMs(t)
  }

  /** The shown time for a known release instant is the remaining time, rounded down
      to whole seconds and clamped at zero. */
  lemma ShownIsClampedRemaining(release: int, now: int)
    ensures ShownMs(Some(release), now) == if release - now > 0 then WholeSecondsMs(release - now) else 0
  {
    if release - now > 0 {
      DecomposeRoundTrip(release - now);
    }
  }

  /** One tick of the one-second interval later, the countdown shows exactly one second
      less, until it reaches zero and stays there. */
  lemma TickShowsOneSecondLess(release: Option<int>, now: int)
    ensures ShownMs(release, now + SecondMs) == if ShownMs(release, now) >= SecondMs then ShownMs(release, now) - SecondMs else 0
  {
    if release.Some? {
      var d := release.value - now;
      ShownIsClampedRemaining(release.value, now);
      ShownIsClampedRemaining(release.value, now + SecondMs);
      if d - SecondMs > 0 {
        ModAddMultiple(-1, SecondMs, d);
      }
    }
  }

  /** The interval has no drift correction: a tick that fires 4 ms late after a
      display of 5 s shows 3 s, so the display skips a second. */
  lemma LateTickSkipsASecond()
    ensures ShownMs(Some(5003), 0) == 5000
    ensures ShownMs(Some(5003), SecondMs + 4) == 3000
  {
    ShownIsClampedRemaining(5003, 0);
    ShownIsClampedRemaining(5003, SecondMs + 4);
  }

  /** Rounding down to whole seconds keeps the order of differences. */
  lemma WholeSecondsMonotone(d1: int, d2: int)
    requires 0 <= d1 <= d2
    ensures WholeSecondsMs(d1) <= WholeSecondsMs(d2)
  {
    var w1, w2 := WholeSecondsMs(d1), WholeSecondsMs(d2);
    DivModUnique(w1, SecondMs, w1 / SecondMs, 0);
    DivModUnique(w2, SecondMs, w2 / SecondMs, 0);
    assert w1 - w2 == (w1 / SecondMs - w2 / SecondMs) * SecondMs;
    MultipleBound(w1 / SecondMs - w2 / SecondMs, SecondMs);
  }

  /** The countdown never goes up as time moves forward. */
  lemma ShownNonIncreasing(release: Option<int>, now1: int, now2: int)
    requires now1 <= now2
    ensures ShownMs(release, now2) <= ShownMs(release, now1)
  {
    if release.Some? {
      var r := release.value;
      ShownIsClampedRemaining(r, now1);
      ShownIsClampedRemaining(r, now2);
      if r - now2 > 0 {
        WholeSecondsMonotone(r - now2, r - now1);
      }
    }
  }
}
