/**
 * Timestamps as the business-time engine sees them: a wall-clock reading in
 * whole seconds and, for an aware timestamp, the UTC offset that its time
 * zone reports for that reading.
 */
module Timestamps {

  datatype Option<+T> = None | Some(value: T)

  /**
   * `wall` is the wall-clock reading in seconds; `offset` is the offset from
   * UTC in seconds, or None for a naive timestamp (no time zone attached, or
   * one that reports no offset).
   */
  datatype Timestamp = Timestamp(wall: int, offset: Option<int>)

  const UtcOffset: int := 0

  predicate IsAware(t: Timestamp) {
    t.offset.Some?
  }

  /**
   * The point on the UTC time line that `t` denotes. A naive timestamp is
   * read as UTC, which is also how two naive timestamps subtract: by their
   * wall clocks.
   */
  function Instant(t: Timestamp): int {
    match t.offset
    case Some(off) => t.wall - off
    case None => t.wall
  }

  /** `t + timedelta(seconds=d)`: moves the wall clock and keeps the zone. */
  function Shift(t: Timestamp, d: int): (r: Timestamp)
    ensures Instant(r) == Instant(t) + d
    ensures r.offset == t.offset
  {
    Timestamp(t.wall + d, t.offset)
  }

  /**
   * localize_unlocalized_dt: an aware timestamp comes back unchanged; a naive
   * one gets UTC attached with its wall-clock reading kept, so it denotes the
   * same instant it was read as.
   */
  function LocalizeUnlocalized(t: Timestamp): (r: Timestamp)
    ensures IsAware(r)
    ensures r.wall == t.wall && Instant(r) == Instant(t)
    ensures IsAware(t) ==> r == t
    ensures !IsAware(t) ==> r.offset == Some(UtcOffset)
  {
    if IsAware(t) then t else Timestamp(t.wall, Some(UtcOffset))
  }

  /** Localizing twice is localizing once. */
  lemma LocalizeIdempotent(t: Timestamp)
    ensures LocalizeUnlocalized(LocalizeUnlocalized(t)) == LocalizeUnlocalized(t)
  {
  }

  /** A naive timestamp is localized exactly as its UTC-aware twin. */
  lemma NaiveLocalizesAsUtc(t: Timestamp)
    requires !IsAware(t)
    ensures LocalizeUnlocalized(t) == LocalizeUnlocalized(Timestamp(t.wall, Some(UtcOffset)))
  {
  }
}
