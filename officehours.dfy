/**
 * A concrete rule provider, one active period per day from 09:00 to 17:00
 * UTC, and the walks it gives. It shows the engine's contracts at work,
 * including the tie-break on a period exactly as long as what remains.
 */
module OfficeHours {
  import opened Timestamps
  import opened TimeDeltas
  import opened PeriodWalk
  import opened BusinessTimeDeltas

  const Opens: int := 9 * SecondsPerHour
  const Closes: int := 17 * SecondsPerHour

  /** 2024-01-01T00:00:00Z, in seconds since the epoch. */
  const Jan1: int := 1704067200

  function Utc(x: int): Timestamp {
    Timestamp(x, Some(UtcOffset))
  }

  /** The office period at-or-after `t`: the rest of today's, or the next day's. */
  function NextOpen(t: Timestamp): Period {
    var x := Instant(t);
    var midnight := x - x % SecondsPerDay;
    if x % SecondsPerDay < Opens then Period(Utc(midnight + Opens), Utc(midnight + Closes))
    else if x % SecondsPerDay < Closes then Period(Utc(x), Utc(midnight + Closes))
    else Period(Utc(midnight + SecondsPerDay + Opens), Utc(midnight + SecondsPerDay + Closes))
  }

  /** The office period at-or-before `t`: the part of today's gone by, or the day before's. */
  function PreviousOpen(t: Timestamp): Period {
    var x := Instant(t);
    var midnight := x - x % SecondsPerDay;
    if x % SecondsPerDay <= Opens then Period(Utc(midnight - SecondsPerDay + Opens), Utc(midnight - SecondsPerDay + Closes))
    else if x % SecondsPerDay <= Closes then Period(Utc(midnight + Opens), Utc(x))
    else Period(Utc(midnight + Opens), Utc(midnight + Closes))
  }

  const Office: Rule := Rule(NextOpen, PreviousOpen)

  /** The office rule keeps every part of the rule provider's contract. */
  lemma OfficeIsWellBehaved()
    ensures Progressing(NextOpen) && Progressing(PreviousOpen)
    ensures Adjacent(Forward, NextOpen) && Adjacent(Backward, PreviousOpen)
    ensures KeepsAware(NextOpen) && KeepsAware(PreviousOpen)
  {
  }

  /** 10 hours from Monday 09:00: all of Monday (8h), then 2h of Tuesday, landing Tuesday 11:00. */
  lemma TenHoursFromMondayMorning()
    ensures StopsAt(Forward, NextOpen, Utc(Jan1 + Opens), 10 * SecondsPerHour, 1)
    ensures Landing(Forward, NextOpen, Utc(Jan1 + Opens), 10 * SecondsPerHour, 1)
      == Utc(Jan1 + SecondsPerDay + 11 * SecondsPerHour)
  {
    assert PeriodAt(Forward, NextOpen, Utc(Jan1 + Opens), 0) == Period(Utc(Jan1 + Opens), Utc(Jan1 + Closes));
    assert CursorAt(Forward, NextOpen, Utc(Jan1 + Opens), 1) == Utc(Jan1 + Closes);
    assert PeriodAt(Forward, NextOpen, Utc(Jan1 + Opens), 1)
      == Period(Utc(Jan1 + SecondsPerDay + Opens), Utc(Jan1 + SecondsPerDay + Closes));
    assert ConsumedBefore(Forward, NextOpen, Utc(Jan1 + Opens), 1) == 8 * SecondsPerHour;
  }

  /** 4 hours from Monday 09:00 fit in Monday's period: Monday 13:00. */
  lemma FourHoursFromMondayMorning()
    ensures StopsAt(Forward, NextOpen, Utc(Jan1 + Opens), 4 * SecondsPerHour, 0)
    ensures Landing(Forward, NextOpen, Utc(Jan1 + Opens), 4 * SecondsPerHour, 0)
      == Utc(Jan1 + 13 * SecondsPerHour)
  {
    assert PeriodAt(Forward, NextOpen, Utc(Jan1 + Opens), 0) == Period(Utc(Jan1 + Opens), Utc(Jan1 + Closes));
  }

  /**
   * The tie going forward: 8 hours from Monday 09:00 use up Monday's period
   * exactly, so the walk goes on and lands at Tuesday 09:00, not Monday 17:00.
   */
  lemma EightHoursFromMondayMorning()
    ensures !StopsAt(Forward, NextOpen, Utc(Jan1 + Opens), 8 * SecondsPerHour, 0)
    ensures StopsAt(Forward, NextOpen, Utc(Jan1 + Opens), 8 * SecondsPerHour, 1)
    ensures Landing(Forward, NextOpen, Utc(Jan1 + Opens), 8 * SecondsPerHour, 1)
      == Utc(Jan1 + SecondsPerDay + Opens)
  {
    assert PeriodAt(Forward, NextOpen, Utc(Jan1 + Opens), 0) == Period(Utc(Jan1 + Opens), Utc(Jan1 + Closes));
    assert CursorAt(Forward, NextOpen, Utc(Jan1 + Opens), 1) == Utc(Jan1 + Closes);
  }

  /**
   * The tie going backward: 4 hours before Monday 13:00 use up Monday's
   * 09:00-13:00 exactly, so the walk lands at Sunday 17:00, not Monday 09:00.
   */
  lemma FourHoursBeforeMondayAfternoon()
    ensures StopsAt(Backward, PreviousOpen, Utc(Jan1 + 13 * SecondsPerHour), 4 * SecondsPerHour, 1)
    ensures Landing(Backward, PreviousOpen, Utc(Jan1 + 13 * SecondsPerHour), 4 * SecondsPerHour, 1)
      == Utc(Jan1 - SecondsPerDay + Closes)
  {
    assert PeriodAt(Backward, PreviousOpen, Utc(Jan1 + 13 * SecondsPerHour), 0)
      == Period(Utc(Jan1 + Opens), Utc(Jan1 + 13 * SecondsPerHour));
    assert CursorAt(Backward, PreviousOpen, Utc(Jan1 + 13 * SecondsPerHour), 1) == Utc(Jan1 + Opens);
    assert PeriodAt(Backward, PreviousOpen, Utc(Jan1 + 13 * SecondsPerHour), 1)
      == Period(Utc(Jan1 - SecondsPerDay + Opens), Utc(Jan1 - SecondsPerDay + Closes));
    assert ConsumedBefore(Backward, PreviousOpen, Utc(Jan1 + 13 * SecondsPerHour), 1) == 4 * SecondsPerHour;
  }

  /**
   * 8 hours before Monday 17:00 use up Monday's whole period, a tie, so the
   * backward walk lands at Sunday 17:00.
   */
  lemma EightHoursBeforeMondayEvening()
    ensures StopsAt(Backward, PreviousOpen, Utc(Jan1 + Closes), 8 * SecondsPerHour, 1)
    ensures Landing(Backward, PreviousOpen, Utc(Jan1 + Closes), 8 * SecondsPerHour, 1)
      == Utc(Jan1 - SecondsPerDay + Closes)
  {
    assert PeriodAt(Backward, PreviousOpen, Utc(Jan1 + Closes), 0) == Period(Utc(Jan1 + Opens), Utc(Jan1 + Closes));
    assert CursorAt(Backward, PreviousOpen, Utc(Jan1 + Closes), 1) == Utc(Jan1 + Opens);
    assert PeriodAt(Backward, PreviousOpen, Utc(Jan1 + Closes), 1)
      == Period(Utc(Jan1 - SecondsPerDay + Opens), Utc(Jan1 - SecondsPerDay + Closes));
    assert ConsumedBefore(Backward, PreviousOpen, Utc(Jan1 + Closes), 1) == 8 * SecondsPerHour;
  }

  /**
   * 8 hours after Sunday 17:00 use up Monday's whole period, a tie, so the
   * forward walk lands at Tuesday 09:00.
   */
  lemma EightHoursAfterSundayEvening()
    ensures StopsAt(Forward, NextOpen, Utc(Jan1 - SecondsPerDay + Closes), 8 * SecondsPerHour, 1)
    ensures Landing(Forward, NextOpen, Utc(Jan1 - SecondsPerDay + Closes), 8 * SecondsPerHour, 1)
      == Utc(Jan1 + SecondsPerDay + Opens)
  {
    assert PeriodAt(Forward, NextOpen, Utc(Jan1 - SecondsPerDay + Closes), 0) == Period(Utc(Jan1 + Opens), Utc(Jan1 + Closes));
    assert CursorAt(Forward, NextOpen, Utc(Jan1 - SecondsPerDay + Closes), 1) == Utc(Jan1 + Closes);
    assert PeriodAt(Forward, NextOpen, Utc(Jan1 - SecondsPerDay + Closes), 1)
      == Period(Utc(Jan1 + SecondsPerDay + Opens), Utc(Jan1 + SecondsPerDay + Closes));
    assert ConsumedBefore(Forward, NextOpen, Utc(Jan1 - SecondsPerDay + Closes), 1) == 8 * SecondsPerHour;
  }

  /**
   * The round trip fails even on a rule whose `next` and `previous` describe
   * the same calendar: subtracting 8 hours from Monday 17:00 and adding them
   * back gives Tuesday 09:00, because both walks consume a tie whole.
   */
  lemma RoundTripBrokenByTie()
    ensures var back := Landing(Backward, PreviousOpen, Utc(Jan1 + Closes), 8 * SecondsPerHour, 1);
      && StopsAt(Backward, PreviousOpen, Utc(Jan1 + Closes), 8 * SecondsPerHour, 1)
      && StopsAt(Forward, NextOpen, back, 8 * SecondsPerHour, 1)
      && Landing(Forward, NextOpen, back, 8 * SecondsPerHour, 1) == Utc(Jan1 + SecondsPerDay + Opens)
      && Landing(Forward, NextOpen, back, 8 * SecondsPerHour, 1) != Utc(Jan1 + Closes)
  {
    EightHoursBeforeMondayEvening();
    EightHoursAfterSundayEvening();
  }

  /**
   * Over the office rule, adding business time from any timestamp stops, and
   * adding more never lands earlier; every landing is aware.
   */
  lemma OfficeAddIsMonotone(dt: Timestamp, left1: int, left2: int)
    requires left1 <= left2
    ensures exists n1: nat, n2: nat ::
      && StopsAt(Forward, NextOpen, LocalizeUnlocalized(dt), left1, n1)
      && StopsAt(Forward, NextOpen, LocalizeUnlocalized(dt), left2, n2)
      && Instant(Landing(Forward, NextOpen, LocalizeUnlocalized(dt), left1, n1))
        <= Instant(Landing(Forward, NextOpen, LocalizeUnlocalized(dt), left2, n2))
      && IsAware(Landing(Forward, NextOpen, LocalizeUnlocalized(dt), left2, n2))
  {
    var from := LocalizeUnlocalized(dt);
    OfficeIsWellBehaved();
    ProgressingWalkTerminates(Forward, NextOpen, from, left1);
    ProgressingWalkTerminates(Forward, NextOpen, from, left2);
    var n1: nat :| StopsAt(Forward, NextOpen, from, left1, n1);
    var n2: nat :| StopsAt(Forward, NextOpen, from, left2, n2);
    ForwardMonotone(NextOpen, from, left1, left2, n1, n2);
    LandingIsAware(Forward, NextOpen, from, left2, n2);
  }

  /**
   * The engine end to end: `BusinessTimeDelta(office, hours=10)` added to a
   * naive Monday 09:00 gives Tuesday 11:00 UTC.
   */
  method TenHoursAfterNaiveMondayMorning() returns (r: Timestamp)
    ensures r == Utc(Jan1 + SecondsPerDay + 11 * SecondsPerHour)
  {
    var delta := New(Office, 10);
    var monday := Timestamp(Jan1 + Opens, None);
    OfficeIsWellBehaved();
    ProgressingRuleTerminates(delta, monday);
    r := Add(delta, monday);
    TenHoursFromMondayMorning();
    ghost var steps: nat :| StopsAt(Forward, NextOpen, Utc(Jan1 + Opens), 10 * SecondsPerHour, steps)
      && r == Landing(Forward, NextOpen, Utc(Jan1 + Opens), 10 * SecondsPerHour, steps);
    StopIsUnique(Forward, NextOpen, Utc(Jan1 + Opens), 10 * SecondsPerHour, steps, 1);
  }

  /** Equality ignores the rule: 1 hour 3600 seconds equals 2 hours, whatever the rules. */
  lemma OneHourAndAnHourIsTwoHours(other: Rule)
    ensures Equal(New(Office, 1, 3600), New(other, 2, 0))
    ensures Repr(New(other, 2, 0)) == (2, 0)
  {
    ReprIsFloorDivision(New(other, 2, 0));
  }
}
