/**
 * BusinessTimeDelta: a duration counted only inside the active periods of a
 * rule provider, and its application to a timestamp by walking those periods
 * forward (add) or backward (subtract).
 */
module BusinessTimeDeltas {
  import opened Timestamps
  import opened TimeDeltas
  import opened PeriodWalk

  /**
   * The rule provider: `next(t)` is the active period at-or-after `t`,
   * `previous(t)` the active period at-or-before `t`. Their behaviour is the
   * rule's own; the engine only asks.
   */
  datatype Rule = Rule(next: Oracle, previous: Oracle)

  /** The rule and the stored `timedelta`; nothing else is kept. */
  datatype BusinessTimeDelta = BusinessTimeDelta(rule: Rule, timedelta: TimeDelta)

  function Duration(delta: BusinessTimeDelta): int {
    TotalSeconds(delta.timedelta)
  }

  /** `BusinessTimeDelta(rule, hours=0, seconds=0)`. */
  function New(rule: Rule, hours: int := 0, seconds: int := 0): (delta: BusinessTimeDelta)
    ensures delta.rule == rule
    ensures Duration(delta) == hours * SecondsPerHour + seconds
  {
    BusinessTimeDelta(rule, FromHoursSeconds(hours, seconds))
  }

  /** `__eq__`: compares the timedeltas only, so the rules play no part. */
  function Equal(a: BusinessTimeDelta, b: BusinessTimeDelta): (eq: bool)
    ensures eq <==> Duration(a) == Duration(b)
  {
    NormalFormUnique(a.timedelta, b.timedelta);
    a.timedelta == b.timedelta
  }

  /**
   * The hours and seconds that `__repr__` shows: whole hours from the days and
   * the seconds of the day, and the seconds left under an hour.
   */
  function Repr(delta: BusinessTimeDelta): (shown: (int, int))
    ensures shown.0 * SecondsPerHour + shown.1 == Duration(delta)
    ensures 0 <= shown.1 < SecondsPerHour
  {
    var td := delta.timedelta;
    var hours := td.days * 24 + (td.seconds - td.seconds % SecondsPerHour) / SecondsPerHour;
    (hours, td.seconds % SecondsPerHour)
  }

  /** The shown hours and seconds are the floor quotient and remainder of the total by an hour. */
  lemma ReprIsFloorDivision(delta: BusinessTimeDelta)
    ensures Repr(delta) == (Duration(delta) / SecondsPerHour, Duration(delta) % SecondsPerHour)
  {
  }

  /** Equality of constructed values: same total, whatever the rules and the split into hours and seconds. */
  lemma EqualIgnoresRule(rule1: Rule, rule2: Rule, hours1: int, seconds1: int, hours2: int, seconds2: int)
    ensures Equal(New(rule1, hours1, seconds1), New(rule2, hours2, seconds2))
      <==> hours1 * SecondsPerHour + seconds1 == hours2 * SecondsPerHour + seconds2
  {
  }

  /**
   * `__add__`: walks forward from the localized timestamp, consuming every
   * period that is not longer than what remains, and returns
   * `period_start + td_left` in the first period that is. The walk must
   * terminate, which is the rule provider's part of the contract.
   */
  method Add(delta: BusinessTimeDelta, dt: Timestamp) returns (r: Timestamp)
    requires Terminates(Forward, delta.rule.next, LocalizeUnlocalized(dt), Duration(delta))
    ensures exists n: nat ::
      StopsAt(Forward, delta.rule.next, LocalizeUnlocalized(dt), Duration(delta), n) &&
      r == Landing(Forward, delta.rule.next, LocalizeUnlocalized(dt), Duration(delta), n)
  {
    var from := LocalizeUnlocalized(dt);
    var cursor := from;
    var tdLeft := Duration(delta);
    var query := delta.rule.next;
    ghost var left := tdLeft;
    ghost var stop: nat :| StopsAt(Forward, query, from, left, stop);
    ghost var steps: nat := 0;
    var period := query(cursor);
    while Length(period) <= tdLeft
      invariant steps <= stop
      invariant cursor == CursorAt(Forward, query, from, steps)
      invariant period == PeriodAt(Forward, query, from, steps)
      invariant tdLeft == RemainingAt(Forward, query, from, left, steps)
      invariant ConsumesFirst(Forward, query, from, left, steps)
      decreases stop - steps
    {
      ConsumeStep(Forward, query, from, left, steps);
      tdLeft := tdLeft - Length(period);
      cursor := period.end;
      steps := steps + 1;
      period := query(cursor);
    }
    r := Shift(period.start, tdLeft);
    assert StopsAt(Forward, query, from, left, steps);
  }

  /** `__radd__`: `dt + delta` is `delta + dt`. */
  method RAdd(delta: BusinessTimeDelta, dt: Timestamp) returns (r: Timestamp)
    requires Terminates(Forward, delta.rule.next, LocalizeUnlocalized(dt), Duration(delta))
    ensures exists n: nat ::
      StopsAt(Forward, delta.rule.next, LocalizeUnlocalized(dt), Duration(delta), n) &&
      r == Landing(Forward, delta.rule.next, LocalizeUnlocalized(dt), Duration(delta), n)
  {
    r := Add(delta, dt);
  }

  /**
   * `__sub__`: walks backward from the localized timestamp, consuming every
   * period that is not longer than what remains, and returns
   * `period_end - td_left` in the first period that is.
   */
  method Subtract(delta: BusinessTimeDelta, dt: Timestamp) returns (r: Timestamp)
    requires Terminates(Backward, delta.rule.previous, LocalizeUnlocalized(dt), Duration(delta))
    ensures exists n: nat ::
      StopsAt(Backward, delta.rule.previous, LocalizeUnlocalized(dt), Duration(delta), n) &&
      r == Landing(Backward, delta.rule.previous, LocalizeUnlocalized(dt), Duration(delta), n)
  {
    var from := LocalizeUnlocalized(dt);
    var cursor := from;
    var tdLeft := Duration(delta);
    var query := delta.rule.previous;
    ghost var left := tdLeft;
    ghost var stop: nat :| StopsAt(Backward, query, from, left, stop);
    ghost var steps: nat := 0;
    var period := query(cursor);
    while Length(period) <= tdLeft
      invariant steps <= stop
      invariant cursor == CursorAt(Backward, query, from, steps)
      invariant period == PeriodAt(Backward, query, from, steps)
      invariant tdLeft == RemainingAt(Backward, query, from, left, steps)
      invariant ConsumesFirst(Backward, query, from, left, steps)
      decreases stop - steps
    {
      ConsumeStep(Backward, query, from, left, steps);
      tdLeft := tdLeft - Length(period);
      cursor := period.start;
      steps := steps + 1;
      period := query(cursor);
    }
    r := Shift(period.end, -tdLeft);
    assert StopsAt(Backward, query, from, left, steps);
  }

  /** `__rsub__`: `dt - delta` runs the same backward walk as `delta - dt`. */
  method RSubtract(delta: BusinessTimeDelta, dt: Timestamp) returns (r: Timestamp)
    requires Terminates(Backward, delta.rule.previous, LocalizeUnlocalized(dt), Duration(delta))
    ensures exists n: nat ::
      StopsAt(Backward, delta.rule.previous, LocalizeUnlocalized(dt), Duration(delta), n) &&
      r == Landing(Backward, delta.rule.previous, LocalizeUnlocalized(dt), Duration(delta), n)
  {
    r := Subtract(delta, dt);
  }

  /**
   * With a rule whose periods are all at least a second long, both walks
   * terminate, so Add and Subtract can be called with any timestamp.
   */
  lemma ProgressingRuleTerminates(delta: BusinessTimeDelta, dt: Timestamp)
    requires Progressing(delta.rule.next) && Progressing(delta.rule.previous)
    ensures Terminates(Forward, delta.rule.next, LocalizeUnlocalized(dt), Duration(delta))
    ensures Terminates(Backward, delta.rule.previous, LocalizeUnlocalized(dt), Duration(delta))
  {
    ProgressingWalkTerminates(Forward, delta.rule.next, LocalizeUnlocalized(dt), Duration(delta));
    ProgressingWalkTerminates(Backward, delta.rule.previous, LocalizeUnlocalized(dt), Duration(delta));
  }

  /**
   * `(dt - delta) + delta` and `(dt + delta) - delta` denote the instant of
   * `dt` when the rule has no gaps; each operation localizes its input first.
   */
  lemma GapFreeRuleRoundTrip(delta: BusinessTimeDelta, dt: Timestamp, n: nat, m: nat)
    requires GapFree(Forward, delta.rule.next) && GapFree(Backward, delta.rule.previous)
    ensures var back := Landing(Backward, delta.rule.previous, LocalizeUnlocalized(dt), Duration(delta), n);
      Instant(Landing(Forward, delta.rule.next, LocalizeUnlocalized(back), Duration(delta), m)) == Instant(dt)
    ensures var forth := Landing(Forward, delta.rule.next, LocalizeUnlocalized(dt), Duration(delta), n);
      Instant(Landing(Backward, delta.rule.previous, LocalizeUnlocalized(forth), Duration(delta), m)) == Instant(dt)
  {
    var from := LocalizeUnlocalized(dt);
    var back := Landing(Backward, delta.rule.previous, from, Duration(delta), n);
    var forth := Landing(Forward, delta.rule.next, from, Duration(delta), n);
    GapFreeLanding(Backward, delta.rule.previous, from, Duration(delta), n);
    GapFreeLanding(Forward, delta.rule.next, LocalizeUnlocalized(back), Duration(delta), m);
    GapFreeLanding(Forward, delta.rule.next, from, Duration(delta), n);
    GapFreeLanding(Backward, delta.rule.previous, LocalizeUnlocalized(forth), Duration(delta), m);
  }

  /**
   * Whatever the input, the walks start from an aware timestamp; with a rule
   * that answers in aware timestamps, both results are aware.
   */
  lemma ResultsAreAware(delta: BusinessTimeDelta, dt: Timestamp, n: nat)
    requires KeepsAware(delta.rule.next) && KeepsAware(delta.rule.previous)
    ensures IsAware(Landing(Forward, delta.rule.next, LocalizeUnlocalized(dt), Duration(delta), n))
    ensures IsAware(Landing(Backward, delta.rule.previous, LocalizeUnlocalized(dt), Duration(delta), n))
  {
    LandingIsAware(Forward, delta.rule.next, LocalizeUnlocalized(dt), Duration(delta), n);
    LandingIsAware(Backward, delta.rule.previous, LocalizeUnlocalized(dt), Duration(delta), n);
  }
}
