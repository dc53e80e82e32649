/**
 * A feed whose clock returns: a zone that goes forward by thirty hours, as an offset of +3000 is
 * read, and a daily rule whose UNTIL falls between two occurrences that are out of order.
 */
module ReturningClock {
  import opened CivilDate
  import opened Weekdays
  import opened Zones
  import opened Recurrence
  import opened FastForwardLimit

  /** A daily rule whose third occurrence comes before the second, with UNTIL between the two. */
  predicate OutOfOrder(s: Series)
    requires ValidSeries(s)
  {
    s.rule.freq.Daily? && s.rule.interval == 1 && s.rule.count < 0 && s.rule.until != 0 &&
    VisitAt(s, 0).At? && VisitAt(s, 1).At? && VisitAt(s, 2).At? && VisitAt(s, 2).due &&
    VisitAt(s, 0).start <= VisitAt(s, 2).start <= s.rule.until < VisitAt(s, 1).start
  }

  /** The loop ends at the second occurrence, and the third is due and within UNTIL. */
  lemma ClockReturns(s: Series)
    requires ValidSeries(s) && OutOfOrder(s)
    ensures Returns(s) && PastStep(s) == 1
  {
    hide VisitAt, ValidSeries, PastStep;
    PastStepIs(s);
    assert !IsPast(s, 0) && IsPast(s, 1) && Qualifies(s, 2);
  }

  /** So an occurrence within UNTIL is lost, however short the event is. */
  lemma ReturnIsLost(s: Series, duration: int)
    requires ValidSeries(s) && OutOfOrder(s) && DstJump(s.zone) <= 3 * DAY && duration > 0
    ensures !NeverLoses(s, duration)
  {
    ClockReturns(s);
    hide ValidSeries, Returns, NeverLoses;
    ReturnLosesOne(s, duration);
  }

  /** Thirty hours forward on the first Sunday of March at midnight, back in November. */
  const LONG_JUMP: Zone := InZone(Vtz(VtzRule(0, 11, 1, 6, 0), VtzRule(108000, 3, 1, 6, 0), true))

  /** Noon of 1, 2, 3 March 2024 and so on; the third lies six hours before the second. */
  function Daily(until: int): Series {
    Series(Rule(Freq.Daily, 1, -1, until, {}, 0, 0), LONG_JUMP, Civil(2024, 3, 1, 12, 0, 0))
  }

  /** The second occurrence; the third lies 21600 seconds before it. */
  const SECOND: int := 19784 * DAY + 43200

  lemma FirstsOfMonths()
    ensures DaysFromCivil(2024, 3, 1) == 19783
    ensures DaysFromCivil(2024, 11, 1) == 20028
  {
  }

  lemma MarchDays()
    ensures DaysFromCivil(2024, 3, 1) == 19783 && DaysFromCivil(2024, 3, 2) == 19784 && DaysFromCivil(2024, 3, 3) == 19785
    ensures CivilFromDays(19783) == Date(2024, 3, 1) && CivilFromDays(19784) == Date(2024, 3, 2) && CivilFromDays(19785) == Date(2024, 3, 3)
  {
    hide DaysFromCivil, CivilFromDays;
    FirstsOfMonths();
    NextDateIsNextDay(Date(2024, 3, 1));
    NextDateIsNextDay(Date(2024, 3, 2));
    RoundTripDate(Date(2024, 3, 1));
    RoundTripDate(Date(2024, 3, 2));
    RoundTripDate(Date(2024, 3, 3));
  }

  lemma Transitions()
    ensures TransitionDayNum(2024, 3, 1, 6) == 19785 && TransitionDayNum(2024, 11, 1, 6) == 20030
  {
    hide DaysFromCivil;
    FirstsOfMonths();
    assert WeekdayOf(19783) == 4 && WeekdayOf(20028) == 4;
    assert ClampToMonth(3, 31) == 3 && ClampToMonth(3, 30) == 3;
  }

  lemma Offsets(c: Civil)
    requires c.y == 2024 && c.mo == 3 && 1 <= c.d <= 3 && c.h == 12 && c.mi == 0
    ensures ValidZone(LONG_JUMP) && ValidCivil(c) && TzOffset(LONG_JUMP, c) == if c.d == 3 then 108000 else 0
  {
    hide DaysFromCivil, TransitionDayNum;
    Transitions();
    MarchDays();
  }

  // The first three occurrences.
  lemma Noons(until: int)
    ensures ValidSeries(Daily(until))
    ensures VisitAt(Daily(until), 0) == At(19783 * DAY + 43200, true)
    ensures VisitAt(Daily(until), 1) == At(SECOND, true)
    ensures VisitAt(Daily(until), 2) == At(SECOND - 21600, true)
  {
    hide DaysFromCivil, CivilFromDays, TzOffset, WeekdayOf;
    MarchDays();
    var s := Daily(until);
    Offsets(s.base);
    Offsets(s.base.(d := 2));
    Offsets(s.base.(d := 3));
    Noon(s, 0, s.base);
    Noon(s, 1, s.base.(d := 2));
    Noon(s, 2, s.base.(d := 3));
  }

  lemma Noon(s: Series, i: nat, c: Civil)
    requires ValidSeries(s) && s.rule.freq.Daily? && s.rule.interval == 1 && ValidCivil(c)
    requires OnDay(s.base, Day0(s) + i) == c
    ensures VisitAt(s, i) == At(CivilToEpoch(s.zone, c), true)
  {
    hide OnDay, Day0, CivilToEpoch, ValidZone, ValidCivil;
  }

  /** With UNTIL between the two the feed is out of order, and its clock jumps thirty hours. */
  lemma FeedOutOfOrder(until: int)
    requires SECOND - 21600 <= until < SECOND
    ensures ValidSeries(Daily(until)) && OutOfOrder(Daily(until)) && DstJump(LONG_JUMP) == 108000
  {
    hide VisitAt, ValidSeries;
    Noons(until);
  }
}
