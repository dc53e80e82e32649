/**
 * What an offset means: seconds of UTC follow each other, and a zone's offset is the one that the
 * latest transition set.
 */
module ZoneLaws {
  import opened CivilDate
  import opened Weekdays
  import opened Zones

  // ----- UTC -----

  predicate ClockTime(c: Civil) {
    0 <= c.h < 24 && 0 <= c.mi < 60 && 0 <= c.s < 60
  }

  /** The date and time one second later. */
  function NextSecond(c: Civil): (n: Civil)
    requires ValidCivil(c) && ClockTime(c)
    ensures ValidCivil(n) && ClockTime(n)
  {
    if c.s < 59 then c.(s := c.s + 1)
    else if c.mi < 59 then c.(mi := c.mi + 1, s := 0)
    else if c.h < 23 then c.(h := c.h + 1, mi := 0, s := 0)
    else
      var d := NextDate(Date(c.y, c.mo, c.d));
      Civil(d.y, d.m, d.d, 0, 0, 0)
  }

  /** UTC counts the seconds one by one from the start of 1970. */
  lemma UtcCountsSeconds(c: Civil)
    requires ValidCivil(c) && ClockTime(c)
    ensures CivilToEpoch(Utc, NextSecond(c)) == CivilToEpoch(Utc, c) + 1
    ensures CivilToEpoch(Utc, Civil(1970, 1, 1, 0, 0, 0)) == 0
  {
    EpochDay();
    NextDateIsNextDay(Date(c.y, c.mo, c.d));
    UtcIs(c);
    UtcIs(NextSecond(c));
    UtcIs(Civil(1970, 1, 1, 0, 0, 0));
    hide DaysFromCivil, CivilToEpoch, DaysInMonth, NextDate;
    SecondsCarry(c);
  }

  lemma SecondsCarry(c: Civil)
    requires ValidCivil(c) && ClockTime(c)
    ensures var n := NextSecond(c);
            var sameDay := Date(n.y, n.mo, n.d) == Date(c.y, c.mo, c.d) && n.h * 3600 + n.mi * 60 + n.s == c.h * 3600 + c.mi * 60 + c.s + 1;
            var nextDay := Date(n.y, n.mo, n.d) == NextDate(Date(c.y, c.mo, c.d)) && n.h == n.mi == n.s == 0
                           && c.h * 3600 + c.mi * 60 + c.s == 86399;
            sameDay || nextDay
  {
    hide NextDate, DaysInMonth;
  }

  lemma UtcIs(c: Civil)
    requires ValidCivil(c)
    ensures CivilToEpoch(Utc, c) == DaysFromCivil(c.y, c.mo, c.d) * 86400 + c.h * 3600 + c.mi * 60 + c.s
  {
    hide DaysFromCivil, DaysInMonth;
  }

  // ----- Zones with daylight-saving time -----

  /** Local times at which the zone's clock is set, and to which offset. */
  datatype Switch = Switch(at: int, offset: int)

  function DstStart(z: Vtz, y: int): int
    requires ValidRule(z.dst)
  {
    TransitionDayNum(y, z.dst.month, z.dst.week, z.dst.wday) * DAY + z.dst.timeSec
  }

  function StdStart(z: Vtz, y: int): int
    requires ValidRule(z.std)
  {
    TransitionDayNum(y, z.std.month, z.std.week, z.std.wday) * DAY + z.std.timeSec
  }

  /** Local time to the minute, which is what transitions are compared with. */
  function ToTheMinute(c: Civil): int
    requires ValidCivil(c)
  {
    DaysFromCivil(c.y, c.mo, c.d) * DAY + c.h * 3600 + c.mi * 60
  }

  function Switches(z: Vtz, y: int): seq<Switch>
    requires ValidRule(z.dst) && ValidRule(z.std)
  {
    [Switch(DstStart(z, y), z.dst.offsetSec), Switch(StdStart(z, y), z.std.offsetSec)]
  }

  /** The latest of the switches at or before t sets the offset. */
  ghost predicate LatestSets(l: seq<Switch>, t: int, offset: int) {
    exists i :: 0 <= i < |l| && l[i].at <= t && l[i].offset == offset
                && forall j :: 0 <= j < |l| && l[j].at <= t ==> l[j].at <= l[i].at
  }

  /** The offset that the latest transition at or before c has set, this year or last. */
  ghost predicate InForce(z: Vtz, c: Civil, offset: int)
    requires ValidRule(z.dst) && ValidRule(z.std) && ValidCivil(c)
  {
    LatestSets(Switches(z, c.y - 1) + Switches(z, c.y), ToTheMinute(c), offset)
  }

  /** Transitions happen within their days, and never both at once. */
  predicate ProperZone(z: Vtz, y: int) {
    && z.hasDst && ValidRule(z.dst) && ValidRule(z.std)
    && 0 <= z.dst.timeSec < DAY && 0 <= z.std.timeSec < DAY
    && DstStart(z, y) != StdStart(z, y) && DstStart(z, y - 1) != StdStart(z, y - 1)
  }

  /** Both transitions of a year lie in that year. */
  lemma TransitionInYear(y: int, r: VtzRule)
    requires ValidRule(r) && 0 <= r.timeSec < DAY
    ensures var at := TransitionDayNum(y, r.month, r.week, r.wday) * DAY + r.timeSec;
            DaysFromCivil(y, 1, 1) * DAY <= at < DaysFromCivil(y + 1, 1, 1) * DAY
  {
    hide TransitionDayNum, DaysFromCivil, DaysInMonth, WeekdayOf, CountInMonth, HowMany;
    TransitionIsNthOrLast(y, r.month, r.week, r.wday);
    if r.month > 1 {
      FirstDayIncreases(y, 1, y, r.month);
      SomeDays(y, 1);
    }
    FirstDayIncreases(y, r.month, y + 1, 1);
  }

  lemma SomeDays(y: int, m: int)
    requires 1 <= m <= 12
    ensures DaysInMonth(y, m) > 0
  {
  }

  lemma DateInYear(c: Civil)
    requires ValidCivil(c)
    ensures DaysFromCivil(c.y, 1, 1) <= DaysFromCivil(c.y, c.mo, c.d)
  {
    assert DaysFromCivil(c.y, c.mo, c.d) == DaysFromCivil(c.y, c.mo, 1) + c.d - 1;
    hide DaysFromCivil, DaysInMonth;
    if c.mo > 1 {
      FirstDayIncreases(c.y, 1, c.y, c.mo);
      SomeDays(c.y, 1);
    }
  }

  // Years of transitions do not overlap, and c comes after all of last year's.
  lemma YearsApart(z: Vtz, c: Civil)
    requires ProperZone(z, c.y) && ValidCivil(c) && ClockTime(c)
    ensures var y := c.y;
            var newYear := DaysFromCivil(y, 1, 1) * DAY;
            && DstStart(z, y - 1) < newYear && StdStart(z, y - 1) < newYear
            && newYear <= DstStart(z, y) && newYear <= StdStart(z, y) && newYear <= ToTheMinute(c)
  {
    hide TransitionDayNum, DaysFromCivil, DaysInMonth;
    TransitionInYear(c.y, z.dst);
    TransitionInYear(c.y, z.std);
    TransitionInYear(c.y - 1, z.dst);
    TransitionInYear(c.y - 1, z.std);
    DateInYear(c);
  }

  // Of four switches, none of the first two later than the others, and each two at different times.
  lemma LatestOfFour(d0: int, s0: int, d: int, s: int, t: int, dst: int, std: int, offset: int)
    requires d0 != s0 && d != s && d0 <= t && s0 <= t && d0 < d && d0 < s && s0 < d && s0 < s
    ensures var l := [Switch(d0, dst), Switch(s0, std), Switch(d, dst), Switch(s, std)];
            LatestSets(l, t, offset) <==>
            offset == if t < d && t < s then (if d0 < s0 then std else dst) else if d <= t && (t < s || s < d) then dst else std
  {
    var l := [Switch(d0, dst), Switch(s0, std), Switch(d, dst), Switch(s, std)];
    var k := if t < d && t < s then (if d0 < s0 then 1 else 0) else if d <= t && (t < s || s < d) then 2 else 3;
    assert l[0].at == d0 && l[1].at == s0 && l[2].at == d && l[3].at == s;
    assert l[k].at <= t && forall j :: 0 <= j < |l| && l[j].at <= t && j != k ==> l[j].at < l[k].at;
  }

  /** The clock goes forward before it goes back in both years, or after it in both. */
  predicate SameOrder(z: Vtz, y: int)
    requires ValidRule(z.dst) && ValidRule(z.std)
  {
    DstStart(z, y - 1) < StdStart(z, y - 1) <==> DstStart(z, y) < StdStart(z, y)
  }

  predicate BeforeBoth(z: Vtz, c: Civil)
    requires ValidRule(z.dst) && ValidRule(z.std) && ValidCivil(c)
  {
    ToTheMinute(c) < DstStart(z, c.y) && ToTheMinute(c) < StdStart(z, c.y)
  }

  /**
   * Local time less UTC is the offset that the latest transition has set, in either hemisphere, if and
   * only if the offsets are equal, or one of this year's transitions is past, or last year's came in the same order.
   */
  lemma OffsetIsInForce(z: Vtz, c: Civil)
    requires ProperZone(z, c.y) && ValidCivil(c) && ClockTime(c)
    ensures InForce(z, c, CivilToEpoch(Utc, c) - CivilToEpoch(InZone(z), c)) <==>
            z.dst.offsetSec == z.std.offsetSec || !BeforeBoth(z, c) || SameOrder(z, c.y)
  {
    hide TransitionDayNum, DaysFromCivil, DaysInMonth, ToTheMinute, DstStart, StdStart, CivilToEpoch, LatestSets, ValidCivil, ValidRule;
    YearsApart(z, c);
    OffsetIs(z, c);
    FourSwitches(z, c.y);
    var y := c.y;
    LatestOfFour(DstStart(z, y - 1), StdStart(z, y - 1), DstStart(z, y), StdStart(z, y), ToTheMinute(c),
                 z.dst.offsetSec, z.std.offsetSec, CivilToEpoch(Utc, c) - CivilToEpoch(InZone(z), c));
  }

  lemma FourSwitches(z: Vtz, y: int)
    requires ValidRule(z.dst) && ValidRule(z.std)
    ensures Switches(z, y - 1) + Switches(z, y)
         == [Switch(DstStart(z, y - 1), z.dst.offsetSec), Switch(StdStart(z, y - 1), z.std.offsetSec),
             Switch(DstStart(z, y), z.dst.offsetSec), Switch(StdStart(z, y), z.std.offsetSec)]
  {
    hide DstStart, StdStart;
  }

  lemma OffsetIs(z: Vtz, c: Civil)
    requires z.hasDst && ValidRule(z.dst) && ValidRule(z.std) && ValidCivil(c)
    ensures var d, s, t := DstStart(z, c.y), StdStart(z, c.y), ToTheMinute(c);
            CivilToEpoch(Utc, c) - CivilToEpoch(InZone(z), c)
            == if (if d < s then d <= t < s else d <= t || t < s) then z.dst.offsetSec else z.std.offsetSec
  {
    hide TransitionDayNum, DaysFromCivil, DaysInMonth;
  }

  /** Rules of different months keep their order, so every zone in use meets the condition. */
  lemma MonthsKeepOrder(z: Vtz, y: int)
    requires ValidRule(z.dst) && ValidRule(z.std) && z.hasDst && z.dst.month != z.std.month
    requires 0 <= z.dst.timeSec < DAY && 0 <= z.std.timeSec < DAY
    ensures ProperZone(z, y) && SameOrder(z, y)
  {
    hide TransitionDayNum, DaysFromCivil, DaysInMonth;
    MonthOrder(z, y);
    MonthOrder(z, y - 1);
  }

  lemma MonthOrder(z: Vtz, y: int)
    requires ValidRule(z.dst) && ValidRule(z.std) && z.dst.month != z.std.month
    requires 0 <= z.dst.timeSec < DAY && 0 <= z.std.timeSec < DAY
    ensures DstStart(z, y) < StdStart(z, y) <==> z.dst.month < z.std.month
    ensures DstStart(z, y) != StdStart(z, y)
  {
    hide TransitionDayNum, DaysFromCivil, DaysInMonth, CountInMonth, HowMany, WeekdayOf;
    TransitionIsNthOrLast(y, z.dst.month, z.dst.week, z.dst.wday);
    TransitionIsNthOrLast(y, z.std.month, z.std.week, z.std.wday);
    if z.dst.month < z.std.month {
      FirstDayIncreases(y, z.dst.month, y, z.std.month);
    } else {
      FirstDayIncreases(y, z.std.month, y, z.dst.month);
    }
  }

  /** A zone without daylight-saving time keeps its one offset. */
  lemma FixedOffset(z: Vtz, c: Civil)
    requires !z.hasDst && ValidCivil(c)
    ensures CivilToEpoch(Utc, c) - CivilToEpoch(InZone(z), c) == z.std.offsetSec
  {
  }
}
