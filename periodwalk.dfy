/**
 * The walk over active periods that turns a business-time duration into a
 * calendar timestamp, stated step by step: at step i the walk asks the rule
 * provider for the period adjacent to its cursor; the period is consumed when
 * its length is at most what remains, and the walk stops at the first period
 * that is strictly longer than what remains.
 */
module PeriodWalk {
  import opened Timestamps

  /** An active period `(start, end)` as a rule provider returns it. */
  datatype Period = Period(start: Timestamp, end: Timestamp)

  /** A rule provider query: `rule.next` or `rule.previous`. */
  type Oracle = Timestamp -> Period

  datatype Direction = Forward | Backward

  /** `period_end - period_start`, in seconds. */
  function Length(p: Period): int {
    Instant(p.end) - Instant(p.start)
  }

  /** Where the cursor goes once `p` is consumed. */
  function Resume(dir: Direction, p: Period): Timestamp {
    match dir
    case Forward => p.end
    case Backward => p.start
  }

  /** Where the walk lands in `p` with `left` seconds still to go. */
  function Land(dir: Direction, p: Period, left: int): Timestamp {
    match dir
    case Forward => Shift(p.start, left)
    case Backward => Shift(p.end, -left)
  }

  /** The cursor before step i of a walk that starts at `from`. */
  function CursorAt(dir: Direction, query: Oracle, from: Timestamp, i: nat): Timestamp {
    if i == 0 then from else Resume(dir, query(CursorAt(dir, query, from, i - 1)))
  }

  /** The period the walk is given at step i. */
  function PeriodAt(dir: Direction, query: Oracle, from: Timestamp, i: nat): Period {
    query(CursorAt(dir, query, from, i))
  }

  /** The total length of the periods of steps 0 .. i-1. */
  function ConsumedBefore(dir: Direction, query: Oracle, from: Timestamp, i: nat): int {
    if i == 0 then 0
    else ConsumedBefore(dir, query, from, i - 1) + Length(PeriodAt(dir, query, from, i - 1))
  }

  /** `td_left` at step i when the walk started with `left`. */
  function RemainingAt(dir: Direction, query: Oracle, from: Timestamp, left: int, i: nat): int {
    left - ConsumedBefore(dir, query, from, i)
  }

  /** The period of step i is consumed: it is not longer than what remains (`not period_delta > td_left`). */
  ghost predicate ConsumedAt(dir: Direction, query: Oracle, from: Timestamp, left: int, i: nat) {
    Length(PeriodAt(dir, query, from, i)) <= RemainingAt(dir, query, from, left, i)
  }

  /** Each of the periods of steps 0 .. n-1 is consumed. */
  ghost predicate ConsumesFirst(dir: Direction, query: Oracle, from: Timestamp, left: int, n: nat) {
    forall i :: 0 <= i < n ==> ConsumedAt(dir, query, from, left, i)
  }

  /** The walk returns at step n. */
  ghost predicate StopsAt(dir: Direction, query: Oracle, from: Timestamp, left: int, n: nat) {
    ConsumesFirst(dir, query, from, left, n) && !ConsumedAt(dir, query, from, left, n)
  }

  /** The walk returns at all. */
  ghost predicate Terminates(dir: Direction, query: Oracle, from: Timestamp, left: int) {
    exists n: nat :: StopsAt(dir, query, from, left, n)
  }

  /** The timestamp the walk returns when it stops at step n. */
  function Landing(dir: Direction, query: Oracle, from: Timestamp, left: int, n: nat): Timestamp {
    Land(dir, PeriodAt(dir, query, from, n), RemainingAt(dir, query, from, left, n))
  }

  /** Every period the oracle gives has length at least one second. */
  ghost predicate Progressing(query: Oracle) {
    forall t :: Length(query(t)) >= 1
  }

  /**
   * The oracle keeps its contract: a period with `start <= end`, lying
   * at-or-after the timestamp asked about (Forward) or at-or-before it
   * (Backward).
   */
  ghost predicate Adjacent(dir: Direction, query: Oracle) {
    && (forall t :: Instant(query(t).start) <= Instant(query(t).end))
    && match dir
       case Forward => forall t :: Instant(t) <= Instant(query(t).start)
       case Backward => forall t :: Instant(query(t).end) <= Instant(t)
  }

  /** An aware timestamp is answered with a period whose ends are aware. */
  ghost predicate KeepsAware(query: Oracle) {
    forall t :: IsAware(t) ==> IsAware(query(t).start) && IsAware(query(t).end)
  }

  /** The walk stops at one step at most, so its result is determined. */
  lemma StopIsUnique(dir: Direction, query: Oracle, from: Timestamp, left: int, n: nat, m: nat)
    requires StopsAt(dir, query, from, left, n)
    requires StopsAt(dir, query, from, left, m)
    ensures n == m
  {
  }

  /**
   * `td_left` never goes negative when it starts non-negative: a period is
   * subtracted only when it is not longer than what remains.
   */
  lemma RemainingStaysNonNegative(dir: Direction, query: Oracle, from: Timestamp, left: int, n: nat, i: nat)
    requires left >= 0
    requires ConsumesFirst(dir, query, from, left, n)
    requires i <= n
    ensures RemainingAt(dir, query, from, left, i) >= 0
  {
    if i > 0 {
      assert ConsumedAt(dir, query, from, left, i - 1);
    }
  }

  /**
   * One step of the loop: a period not longer than what remains is consumed,
   * the cursor moves past it and what remains shrinks by exactly its length.
   */
  lemma ConsumeStep(dir: Direction, query: Oracle, from: Timestamp, left: int, i: nat)
    requires ConsumesFirst(dir, query, from, left, i)
    requires Length(PeriodAt(dir, query, from, i)) <= RemainingAt(dir, query, from, left, i)
    ensures ConsumesFirst(dir, query, from, left, i + 1)
    ensures CursorAt(dir, query, from, i + 1) == Resume(dir, PeriodAt(dir, query, from, i))
    ensures RemainingAt(dir, query, from, left, i + 1)
      == RemainingAt(dir, query, from, left, i) - Length(PeriodAt(dir, query, from, i))
  {
  }

  /**
   * Tie-break: a period exactly as long as what remains is consumed whole;
   * the walk does not stop there, and goes on with nothing left.
   */
  lemma TieIsConsumed(dir: Direction, query: Oracle, from: Timestamp, left: int, i: nat)
    requires ConsumesFirst(dir, query, from, left, i)
    requires Length(PeriodAt(dir, query, from, i)) == RemainingAt(dir, query, from, left, i)
    ensures !StopsAt(dir, query, from, left, i)
    ensures ConsumesFirst(dir, query, from, left, i + 1)
    ensures RemainingAt(dir, query, from, left, i + 1) == 0
    ensures CursorAt(dir, query, from, i + 1) == Resume(dir, PeriodAt(dir, query, from, i))
    ensures forall n: nat :: StopsAt(dir, query, from, left, n) ==> n > i
  {
  }

  /**
   * Forward walk: the result lies in the last period asked for,
   * `start <= result < end`, at `start + td_left`; the consumed periods plus
   * `result - start` add up to the whole duration.
   */
  lemma ForwardLandsInLastPeriod(query: Oracle, from: Timestamp, left: int, n: nat)
    requires left >= 0
    requires StopsAt(Forward, query, from, left, n)
    ensures var p, r := PeriodAt(Forward, query, from, n), Landing(Forward, query, from, left, n);
      && Instant(p.start) <= Instant(r) < Instant(p.end)
      && r == Shift(p.start, RemainingAt(Forward, query, from, left, n))
      && ConsumedBefore(Forward, query, from, n) + (Instant(r) - Instant(p.start)) == left
  {
    RemainingStaysNonNegative(Forward, query, from, left, n, n);
  }

  /**
   * Backward walk: the result lies in the last period asked for,
   * `start < result <= end`, at `end - td_left`; the consumed periods plus
   * `end - result` add up to the whole duration.
   */
  lemma BackwardLandsInLastPeriod(query: Oracle, from: Timestamp, left: int, n: nat)
    requires left >= 0
    requires StopsAt(Backward, query, from, left, n)
    ensures var p, r := PeriodAt(Backward, query, from, n), Landing(Backward, query, from, left, n);
      && Instant(p.start) < Instant(r) <= Instant(p.end)
      && r == Shift(p.end, -RemainingAt(Backward, query, from, left, n))
      && ConsumedBefore(Backward, query, from, n) + (Instant(p.end) - Instant(r)) == left
  {
    RemainingStaysNonNegative(Backward, query, from, left, n, n);
  }

  /** Searching on from step i, where at most `left - i` remains, finds the stop. */
  lemma {:induction false} StopFoundFrom(dir: Direction, query: Oracle, from: Timestamp, left: int, i: nat)
    requires Progressing(query)
    requires ConsumesFirst(dir, query, from, left, i)
    requires RemainingAt(dir, query, from, left, i) <= left - i
    ensures exists n: nat :: n <= (if left < 0 then 0 else left) && StopsAt(dir, query, from, left, n)
    decreases RemainingAt(dir, query, from, left, i)
  {
    var rem := RemainingAt(dir, query, from, left, i);
    if Length(PeriodAt(dir, query, from, i)) > rem {
      if i > 0 {
        assert ConsumedAt(dir, query, from, left, 0) && Length(PeriodAt(dir, query, from, 0)) >= 1;
        RemainingStaysNonNegative(dir, query, from, left, i, i);
      }
      assert StopsAt(dir, query, from, left, i);
    } else {
      assert Length(PeriodAt(dir, query, from, i)) >= 1;
      assert RemainingAt(dir, query, from, left, i + 1) == rem - Length(PeriodAt(dir, query, from, i));
      assert ConsumesFirst(dir, query, from, left, i + 1);
      StopFoundFrom(dir, query, from, left, i + 1);
    }
  }

  /**
   * When every period is at least a second long the walk terminates, after
   * consuming at most `left` periods.
   */
  lemma ProgressingWalkTerminates(dir: Direction, query: Oracle, from: Timestamp, left: int)
    requires Progressing(query)
    ensures exists n: nat :: n <= (if left < 0 then 0 else left) && StopsAt(dir, query, from, left, n)
    ensures Terminates(dir, query, from, left)
  {
    StopFoundFrom(dir, query, from, left, 0);
  }

  /** The cursor only moves in the walk's direction. */
  lemma {:induction false} CursorMoves(dir: Direction, query: Oracle, from: Timestamp, i: nat, j: nat)
    requires Adjacent(dir, query)
    requires i <= j
    ensures match dir
      case Forward => Instant(CursorAt(dir, query, from, i)) <= Instant(CursorAt(dir, query, from, j))
      case Backward => Instant(CursorAt(dir, query, from, j)) <= Instant(CursorAt(dir, query, from, i))
    decreases j
  {
    if i < j {
      CursorMoves(dir, query, from, i, j - 1);
      var c := CursorAt(dir, query, from, j - 1);
      assert Instant(query(c).start) <= Instant(query(c).end);
    }
  }

  /**
   * A negative duration stops the walk at its first step with an adjacent
   * oracle: no period is shorter than zero, so none is consumed.
   */
  lemma NegativeStopsAtOnce(dir: Direction, query: Oracle, from: Timestamp, left: int)
    requires Adjacent(dir, query)
    requires left < 0
    ensures StopsAt(dir, query, from, left, 0)
    ensures Terminates(dir, query, from, left)
    ensures forall n: nat :: StopsAt(dir, query, from, left, n) ==> n == 0
  {
    assert Instant(query(from).start) <= Instant(query(from).end);
    assert !ConsumedAt(dir, query, from, left, 0);
    assert StopsAt(dir, query, from, left, 0);
  }

  /**
   * A zero duration added at the start of a period of positive length stops
   * at once and returns the timestamp it was given.
   */
  lemma ZeroDurationForward(query: Oracle, from: Timestamp)
    requires Length(query(from)) >= 1 && query(from).start == from
    ensures StopsAt(Forward, query, from, 0, 0)
    ensures Landing(Forward, query, from, 0, 0) == from
  {
  }

  /**
   * A zero duration subtracted at the end of a period of positive length
   * stops at once and returns the timestamp it was given.
   */
  lemma ZeroDurationBackward(query: Oracle, from: Timestamp)
    requires Length(query(from)) >= 1 && query(from).end == from
    ensures StopsAt(Backward, query, from, 0, 0)
    ensures Landing(Backward, query, from, 0, 0) == from
  {
  }

  /**
   * With more to walk, the walk stops no earlier: each step keeps
   * `left2 - left1` more in hand.
   */
  lemma LongerWalkStopsNoEarlier(dir: Direction, query: Oracle, from: Timestamp, left1: int, left2: int, n1: nat, n2: nat)
    requires left1 <= left2
    requires StopsAt(dir, query, from, left1, n1)
    requires StopsAt(dir, query, from, left2, n2)
    ensures n1 <= n2
    ensures RemainingAt(dir, query, from, left2, n2) - RemainingAt(dir, query, from, left1, n2) == left2 - left1
  {
    assert ConsumedAt(dir, query, from, left1, n2) ==> ConsumedAt(dir, query, from, left2, n2);
  }

  /**
   * Forward monotonicity: with an adjacent oracle, a longer duration lands
   * no earlier, `add(t, D1) <= add(t, D2)` for any `D1 <= D2`, negative
   * durations included.
   */
  lemma ForwardMonotone(query: Oracle, from: Timestamp, left1: int, left2: int, n1: nat, n2: nat)
    requires Adjacent(Forward, query)
    requires left1 <= left2
    requires StopsAt(Forward, query, from, left1, n1)
    requires StopsAt(Forward, query, from, left2, n2)
    ensures Instant(Landing(Forward, query, from, left1, n1)) <= Instant(Landing(Forward, query, from, left2, n2))
  {
    LongerWalkStopsNoEarlier(Forward, query, from, left1, left2, n1, n2);
    if n1 < n2 {
      var p1, p2 := PeriodAt(Forward, query, from, n1), PeriodAt(Forward, query, from, n2);
      if left1 < 0 {
        NegativeStopsAtOnce(Forward, query, from, left1);
      }
      assert ConsumedAt(Forward, query, from, left2, 0) && Instant(query(from).start) <= Instant(query(from).end);
      RemainingStaysNonNegative(Forward, query, from, left2, n2, n2);
      CursorMoves(Forward, query, from, n1 + 1, n2);
      var c := CursorAt(Forward, query, from, n2);
      assert Instant(Landing(Forward, query, from, left1, n1)) < Instant(p1.end) == Instant(CursorAt(Forward, query, from, n1 + 1));
      assert Instant(c) <= Instant(p2.start) <= Instant(Landing(Forward, query, from, left2, n2));
    }
  }

  /**
   * Backward monotonicity: with an adjacent oracle, a longer duration lands
   * no later, `subtract(t, D2) <= subtract(t, D1)` for any `D1 <= D2`,
   * negative durations included.
   */
  lemma BackwardMonotone(query: Oracle, from: Timestamp, left1: int, left2: int, n1: nat, n2: nat)
    requires Adjacent(Backward, query)
    requires left1 <= left2
    requires StopsAt(Backward, query, from, left1, n1)
    requires StopsAt(Backward, query, from, left2, n2)
    ensures Instant(Landing(Backward, query, from, left2, n2)) <= Instant(Landing(Backward, query, from, left1, n1))
  {
    LongerWalkStopsNoEarlier(Backward, query, from, left1, left2, n1, n2);
    if n1 < n2 {
      var p1, p2 := PeriodAt(Backward, query, from, n1), PeriodAt(Backward, query, from, n2);
      if left1 < 0 {
        NegativeStopsAtOnce(Backward, query, from, left1);
      }
      assert ConsumedAt(Backward, query, from, left2, 0) && Instant(query(from).start) <= Instant(query(from).end);
      RemainingStaysNonNegative(Backward, query, from, left2, n2, n2);
      CursorMoves(Backward, query, from, n1 + 1, n2);
      var c := CursorAt(Backward, query, from, n2);
      assert Instant(CursorAt(Backward, query, from, n1 + 1)) == Instant(p1.start) < Instant(Landing(Backward, query, from, left1, n1));
      assert Instant(Landing(Backward, query, from, left2, n2)) <= Instant(p2.end) <= Instant(c);
    }
  }

  /**
   * A rule without gaps: every period begins at the timestamp asked about
   * (Forward) or ends at it (Backward), so all time is business time.
   */
  ghost predicate GapFree(dir: Direction, query: Oracle) {
    match dir
    case Forward => forall t :: Instant(query(t).start) == Instant(t)
    case Backward => forall t :: Instant(query(t).end) == Instant(t)
  }

  /** Without gaps, the cursor is as far from the start as the periods consumed so far. */
  lemma {:induction false} GapFreeCursor(dir: Direction, query: Oracle, from: Timestamp, i: nat)
    requires GapFree(dir, query)
    ensures match dir
      case Forward => Instant(CursorAt(dir, query, from, i)) == Instant(from) + ConsumedBefore(dir, query, from, i)
      case Backward => Instant(CursorAt(dir, query, from, i)) == Instant(from) - ConsumedBefore(dir, query, from, i)
    decreases i
  {
    if i > 0 {
      GapFreeCursor(dir, query, from, i - 1);
    }
  }

  /**
   * Without gaps, business time is calendar time: the walk lands exactly
   * `left` seconds after (Forward) or before (Backward) where it started.
   */
  lemma GapFreeLanding(dir: Direction, query: Oracle, from: Timestamp, left: int, n: nat)
    requires GapFree(dir, query)
    ensures match dir
      case Forward => Instant(Landing(dir, query, from, left, n)) == Instant(from) + left
      case Backward => Instant(Landing(dir, query, from, left, n)) == Instant(from) - left
  {
    GapFreeCursor(dir, query, from, n);
  }

  /**
   * On a gap-free rule, subtracting a duration and adding it back returns
   * to the same instant, and so does adding then subtracting.
   */
  lemma GapFreeRoundTrip(next: Oracle, previous: Oracle, from: Timestamp, left: int, n: nat, m: nat)
    requires GapFree(Forward, next) && GapFree(Backward, previous)
    ensures Instant(Landing(Forward, next, Landing(Backward, previous, from, left, n), left, m)) == Instant(from)
    ensures Instant(Landing(Backward, previous, Landing(Forward, next, from, left, n), left, m)) == Instant(from)
  {
    GapFreeLanding(Backward, previous, from, left, n);
    GapFreeLanding(Forward, next, Landing(Backward, previous, from, left, n), left, m);
    GapFreeLanding(Forward, next, from, left, n);
    GapFreeLanding(Backward, previous, Landing(Forward, next, from, left, n), left, m);
  }

  /** A walk that starts aware, over an oracle that keeps awareness, ends aware. */
  lemma {:induction false} LandingIsAware(dir: Direction, query: Oracle, from: Timestamp, left: int, n: nat)
    requires KeepsAware(query)
    requires IsAware(from)
    ensures IsAware(CursorAt(dir, query, from, n))
    ensures IsAware(Landing(dir, query, from, left, n))
  {
    if n > 0 {
      LandingIsAware(dir, query, from, left, n - 1);
    }
  }
}
