/**
 * Recurrence rules of a VEVENT (section 3.3.10 of RFC 5545): which days a rule
 * visits, what the parser's bounded and fast-forwarded loops hand out, and why
 * that is the plain list of due starts from DTSTART on.
 */
module Recurrence {
  import opened Options
  import opened CArith
  import opened CivilDate
  import opened Weekdays
  import opened Zones
  import opened CalendarEvents

  const MAX_DAY_ITERATIONS: int := 40000
  const MAX_MONTH_ITERATIONS: int := 1200
  const MAX_YEAR_ITERATIONS: int := 100

  datatype Freq = Daily | Weekly | Monthly | Yearly

  /** count is negative when unbounded and until is 0 when absent; byday holds Monday-based weekdays. */
  datatype Rule = Rule(
    freq: Freq, interval: int, count: int, until: int,
    byday: set<int>, bydayOrd: int, bymonthday: int)

  /** A rule together with the event's zone and local start. */
  datatype Series = Series(rule: Rule, zone: Zone, base: Civil)

  predicate ValidSeries(s: Series) {
    && s.rule.interval >= 1
    && (forall d | d in s.rule.byday :: 0 <= d < 7)
    && ValidZone(s.zone) && ValidCivil(s.base)
  }

  predicate ByDays(s: Series) {
    s.rule.freq.Daily? || s.rule.freq.Weekly?
  }

  function Day0(s: Series): int
    requires ValidSeries(s)
  {
    DaysFromCivil(s.base.y, s.base.mo, s.base.d)
  }

  function DtStart(s: Series): int
    requires ValidSeries(s)
  {
    CivilToEpoch(s.zone, s.base)
  }

  // ----- What a rule visits -----

  /** The weekdays of a weekly rule; without BYDAY, that of DTSTART. */
  function Mask(s: Series): set<int>
    requires ValidSeries(s)
  {
    if s.rule.freq.Weekly? && s.rule.byday == {} then {WeekdayOf(Day0(s))} else s.rule.byday
  }

  /** Whether the n-th day after DTSTART is due. */
  predicate Due(s: Series, n: nat)
    requires ValidSeries(s)
  {
    var startDow := WeekdayOf(Day0(s));
    if s.rule.freq.Daily? then n % s.rule.interval == 0
    else
      var weekIndex := TruncDiv(n + startDow, 7);
      TruncMod(startDow + n, 7) in Mask(s) && TruncMod(weekIndex, s.rule.interval) == 0
  }

  /** The last of the listed weekdays, or -1 for none. */
  function TargetWeekday(byday: set<int>, upTo: int): (wd: int)
    requires -1 <= upTo < 7
    ensures wd == -1 || (0 <= wd <= upTo && wd in byday)
    ensures forall d :: 0 <= d <= upTo && d in byday ==> d <= wd
  {
    if upTo < 0 then -1
    else if upTo in byday then upTo
    else TargetWeekday(byday, upTo - 1)
  }

  /** The day of the month a monthly rule asks for; it may not exist. */
  function DayInMonth(s: Series, y: int, m: int): int
    requires 1 <= m <= 12
  {
    var target := TargetWeekday(s.rule.byday, 6);
    if target >= 0 then MonthlyDay(y, m, target, s.rule.bydayOrd)
    else if s.rule.bymonthday > 0 then s.rule.bymonthday
    else if s.rule.bymonthday < 0 then DaysInMonth(y, m) + 1 + s.rule.bymonthday
    else s.base.d
  }

  /** The local date and time of the i-th step of the rule, if there is such a date. */
  function CivilAt(s: Series, i: nat): (r: Option<Civil>)
    requires ValidSeries(s)
    ensures r.Some? ==> ValidCivil(r.value)
    ensures r.Some? ==> r.value.h == s.base.h && r.value.mi == s.base.mi && r.value.s == s.base.s
  {
    match s.rule.freq
    case Daily => Some(OnDay(s.base, Day0(s) + i))
    case Weekly => Some(OnDay(s.base, Day0(s) + i))
    case Monthly =>
      var k := s.base.mo + i * s.rule.interval - 1;
      var y, m := s.base.y + TruncDiv(k, 12), k - 12 * TruncDiv(k, 12) + 1;
      MonthsInRange(s, i);
      var d := DayInMonth(s, y, m);
      if 1 <= d <= DaysInMonth(y, m) then Some(s.base.(y := y, mo := m, d := d)) else None
    case Yearly =>
      var y := s.base.y + i * s.rule.interval;
      if s.base.d <= DaysInMonth(y, s.base.mo) then Some(s.base.(y := y)) else None
  }

  lemma MonthsInRange(s: Series, i: nat)
    requires ValidSeries(s)
    ensures var k := s.base.mo + i * s.rule.interval - 1;
            k >= 0 && 1 <= k - 12 * TruncDiv(k, 12) + 1 <= 12
  {
    var k := s.base.mo + i * s.rule.interval - 1;
    assert i * s.rule.interval >= 0;
    TruncModRange(k, 12);
  }

  /** What one turn of the loop sees: nothing, or a start that may be due. */
  datatype Visit = Skip | At(start: int, due: bool)

  function VisitAt(s: Series, i: nat): Visit
    requires ValidSeries(s)
  {
    match CivilAt(s, i)
    case None => Skip
    case Some(c) =>
      var start := CivilToEpoch(s.zone, c);
      match s.rule.freq
      case Monthly => if start < DtStart(s) then Skip else At(start, true)
      case Yearly => At(start, true)
      case _ => At(start, Due(s, i))
  }

  // ----- The plain list and the parser's loop -----

  predicate Qualifies(s: Series, i: nat)
    requires ValidSeries(s)
  {
    var v := VisitAt(s, i);
    v.At? && v.due && (s.rule.until == 0 || v.start <= s.rule.until)
  }

  /** The due starts of steps lo to hi - 1 up to UNTIL, with no cap and no early stop. */
  function Matches(s: Series, lo: nat, hi: nat): (r: seq<int>)
    requires ValidSeries(s)
    ensures lo < hi && Qualifies(s, lo) ==> |r| > 0
    decreases hi - lo
  {
    if lo >= hi then []
    else (if Qualifies(s, lo) then [VisitAt(s, lo).start] else []) + Matches(s, lo + 1, hi)
  }

  /** At most the first count of them; a negative count is no bound. */
  function Limited(starts: seq<int>, count: int): seq<int> {
    if 0 <= count <= |starts| then starts[..count] else starts
  }

  /** The starts the loop emits from step lo on, with remaining left of COUNT, until a break or the cap hi. */
  function Scan(s: Series, lo: nat, hi: nat, remaining: int, horizon: int): seq<int>
    requires ValidSeries(s)
    decreases hi - lo
  {
    if lo >= hi then []
    else
      var v := VisitAt(s, lo);
      if v.Skip? then Scan(s, lo + 1, hi, remaining, horizon)
      else if v.start > horizon then []
      else if s.rule.until != 0 && v.start > s.rule.until then []
      else if remaining == 0 then []
      else if v.due then
        [v.start] + Scan(s, lo + 1, hi, if remaining > 0 then remaining - 1 else remaining, horizon)
      else Scan(s, lo + 1, hi, remaining, horizon)
  }

  function Step(s: Series): (step: int)
    requires ValidSeries(s)
    ensures step >= 1
  {
    if s.rule.freq.Daily? then s.rule.interval else 7 * s.rule.interval
  }

  /** The last multiple of the step up to a. */
  function LastMultiple(a: nat, step: int): (m: nat)
    requires step >= 1
    ensures a - step < m <= a
  {
    if a < step then 0 else step + LastMultiple(a - step, step)
  }

  /** It is a multiple, the one that dividing and multiplying gives. */
  lemma {:induction false} LastMultipleIs(a: nat, step: int)
    requires step >= 1
    ensures LastMultiple(a, step) == (a / step) * step && LastMultiple(a, step) % step == 0
  {
    if a < step {
      DivUnique(a, step, 0, a);
      DivUnique(0, step, 0, 0);
    } else {
      LastMultipleIs(a - step, step);
      ModShift(LastMultiple(a - step, step), step);
      OneMore(a - step, step);
    }
  }

  lemma OneMore(a: nat, step: int)
    requires step >= 1
    ensures ((a + step) / step) * step == (a / step) * step + step
  {
    assert a == step * (a / step) + a % step;
    DivUnique(a + step, step, a / step + 1, a % step);
    Distribute(a / step + 1, step, 0);
  }

  /** The step the loop starts from: near the window when no COUNT has to be kept. */
  function FastForward(s: Series, w: Window): nat
    requires ValidSeries(s)
  {
    if ByDays(s) && s.rule.count < 0 && w.start > DtStart(s) then
      var daysAhead := (w.start - DtStart(s)) / DAY - 2;
      if daysAhead > 0 then LastMultiple(daysAhead, Step(s)) else 0
    else 0
  }

  lemma FastForwardIs(s: Series, w: Window)
    requires ValidSeries(s)
    ensures var n := FastForward(s, w);
            n > 0 ==> && ByDays(s) && s.rule.count < 0 && n % Step(s) == 0
                      && DtStart(s) + (n + 2) * DAY <= w.start
  {
    hide ValidSeries, DtStart, Step;
    if FastForward(s, w) > 0 {
      LastMultipleIs((w.start - DtStart(s)) / DAY - 2, Step(s));
    }
  }

  /** The step at which the loop's iteration cap ends it. */
  function ScanEnd(s: Series, w: Window): nat
    requires ValidSeries(s)
  {
    if ByDays(s) then FastForward(s, w) + MAX_DAY_ITERATIONS
    else if s.rule.freq.Monthly? then (MAX_MONTH_ITERATIONS - 1) / s.rule.interval + 1
    else (MAX_YEAR_ITERATIONS - 1) / s.rule.interval + 1
  }

  /** All starts the parser hands to emission for a recurring event. */
  function LoopStarts(s: Series, w: Window): seq<int>
    requires ValidSeries(s)
  {
    Scan(s, FastForward(s, w), ScanEnd(s, w), s.rule.count, w.end + 2 * DAY)
  }

  // ----- Steps go forward in time -----

  function DayOf(c: Civil): int
    requires ValidCivil(c)
  {
    DaysFromCivil(c.y, c.mo, c.d)
  }

  lemma LaterMonthLaterDay(c: Civil, c': Civil)
    requires ValidCivil(c) && ValidCivil(c')
    requires MonthIndex(c.y, c.mo) < MonthIndex(c'.y, c'.mo)
    ensures DayOf(c) + 1 <= DayOf(c')
  {
    FirstDayIncreases(c.y, c.mo, c'.y, c'.mo);
    DayIsFirstPlus(c);
    DayIsFirstPlus(c');
    hide DaysFromCivil;
  }

  lemma DayIsFirstPlus(c: Civil)
    requires ValidCivil(c)
    ensures DayOf(c) == DaysFromCivil(c.y, c.mo, 1) + c.d - 1
  {
  }

  lemma StepsMultiply(interval: int, i: nat, j: nat)
    requires interval >= 1 && i <= j
    ensures i * interval + (j - i) <= j * interval
  {
    assert (j - i) * interval >= j - i;
  }

  // The month a monthly or yearly step lands in.
  lemma MonthOfStep(s: Series, i: nat)
    requires ValidSeries(s) && !ByDays(s) && CivilAt(s, i).Some?
    ensures MonthIndex(CivilAt(s, i).value.y, CivilAt(s, i).value.mo) - MonthIndex(s.base.y, s.base.mo)
         == if s.rule.freq.Monthly? then i * s.rule.interval else 12 * (i * s.rule.interval)
  {
    hide DaysInMonth, DaysFromCivil, MonthlyDay, DayInMonth, ValidZone;
    if s.rule.freq.Monthly? {
      MonthsInRange(s, i);
      hide TruncDiv;
    }
  }

  /** Every later step is at least a day later on the calendar. */
  lemma StepsGoForward(s: Series, i: nat, j: nat)
    requires ValidSeries(s) && i < j && CivilAt(s, i).Some? && CivilAt(s, j).Some?
    ensures DayOf(CivilAt(s, i).value) + 1 <= DayOf(CivilAt(s, j).value)
  {
    if !ByDays(s) {
      MonthOfStep(s, i);
      MonthOfStep(s, j);
      StepsMultiply(s.rule.interval, i, j);
      hide CivilAt, DayOf;
      LaterMonthLaterDay(CivilAt(s, i).value, CivilAt(s, j).value);
    } else {
      DayOfDayStep(s, i);
      DayOfDayStep(s, j);
    }
  }

  lemma DayOfDayStep(s: Series, i: nat)
    requires ValidSeries(s) && ByDays(s)
    ensures CivilAt(s, i).Some? && DayOf(CivilAt(s, i).value) == Day0(s) + i
  {
    hide DaysFromCivil, ValidZone;
  }

  /** The starts of two steps keep their order up to the daylight-saving jump. */
  lemma VisitsGoForward(s: Series, i: nat, j: nat)
    requires ValidSeries(s) && i < j && VisitAt(s, i).At? && VisitAt(s, j).At?
    ensures VisitAt(s, j).start >= VisitAt(s, i).start + DAY - DstJump(s.zone)
  {
    hide CivilAt, CivilToEpoch, DstJump, DaysFromCivil, Due, ValidZone, ValidCivil;
    StepsGoForward(s, i, j);
    EpochSpread(s.zone, CivilAt(s, i).value, CivilAt(s, j).value);
  }

  // Days of consecutive months, asked for by the same rule.
  lemma NextMonthApart(s: Series, y: int, m: int, y': int, m': int)
    requires ValidSeries(s) && 1 <= m <= 12 && 1 <= m' <= 12 && MonthIndex(y', m') == MonthIndex(y, m) + 1
    requires 1 <= DayInMonth(s, y, m) <= DaysInMonth(y, m) && 1 <= DayInMonth(s, y', m') <= DaysInMonth(y', m')
    ensures DaysFromCivil(y, m, 1) + DayInMonth(s, y, m) + 7 <= DaysFromCivil(y', m', 1) + DayInMonth(s, y', m')
  {
    hide DaysFromCivil, MonthlyDay, DaysInMonth, TargetWeekday, ValidSeries, WeekdayOf;
    NextMonth(y, m, y', m');
    MonthLength(y, m);
    var target := TargetWeekday(s.rule.byday, 6);
    if target >= 0 {
      OrdinalWeekday(y, m, target, s.rule.bydayOrd);
      OrdinalWeekday(y', m', target, s.rule.bydayOrd);
      SameWeekdayApart(DaysFromCivil(y, m, 1) + DayInMonth(s, y, m) - 1, DaysFromCivil(y', m', 1) + DayInMonth(s, y', m') - 1);
    }
  }

  lemma DayAsked(s: Series, i: nat)
    requires ValidSeries(s) && s.rule.freq.Monthly? && CivilAt(s, i).Some?
    ensures var c := CivilAt(s, i).value; c.d == DayInMonth(s, c.y, c.mo) && 1 <= c.d <= DaysInMonth(c.y, c.mo)
  {
    hide DayInMonth, DaysInMonth, TruncDiv, ValidZone;
    MonthsInRange(s, i);
  }

  lemma NextMonth(y: int, m: int, y': int, m': int)
    requires 1 <= m <= 12 && 1 <= m' <= 12 && MonthIndex(y', m') == MonthIndex(y, m) + 1
    ensures Date(y', m', 1) == NextDate(Date(y, m, DaysInMonth(y, m)))
  {
    hide DaysInMonth;
  }

  // A BYDAY day that exists falls on its weekday.
  lemma OrdinalWeekday(y: int, m: int, wday: int, byOrd: int)
    requires 1 <= m <= 12 && 0 <= wday < 7 && 1 <= MonthlyDay(y, m, wday, byOrd) <= DaysInMonth(y, m)
    ensures WeekdayOf(DaysFromCivil(y, m, 1) + MonthlyDay(y, m, wday, byOrd) - 1) == wday
  {
    hide WeekdayOf, DaysFromCivil, DaysInMonth, HowMany, CountInMonth, MonthlyDay;
    if byOrd > 0 {
      MonthlyDayFromStart(y, m, wday, byOrd);
    } else if byOrd == 0 {
      MonthlyDayFromStart(y, m, wday, 1);
      NoOrdinalIsFirst(y, m, wday);
    } else {
      MonthlyDayFromEnd(y, m, wday, -byOrd);
    }
  }

  lemma NoOrdinalIsFirst(y: int, m: int, wday: int)
    requires 1 <= m <= 12
    ensures MonthlyDay(y, m, wday, 0) == MonthlyDay(y, m, wday, 1)
  {
  }

  lemma SameWeekdayApart(a: int, b: int)
    requires a < b && WeekdayOf(a) == WeekdayOf(b)
    ensures a + 7 <= b
  {
    hide WeekdayOf;
    WeekdayIsMod(a);
    WeekdayIsMod(b);
  }

  /** Steps of a monthly or yearly rule are at least a week apart. */
  lemma MonthStepsApart(s: Series, i: nat, j: nat)
    requires ValidSeries(s) && !ByDays(s) && i < j && CivilAt(s, i).Some? && CivilAt(s, j).Some?
    ensures DayOf(CivilAt(s, i).value) + 7 <= DayOf(CivilAt(s, j).value)
  {
    var c, c' := CivilAt(s, i).value, CivilAt(s, j).value;
    MonthOfStep(s, i);
    MonthOfStep(s, j);
    StepsMultiply(s.rule.interval, i, j);
    if s.rule.freq.Monthly? && MonthIndex(c'.y, c'.mo) == MonthIndex(c.y, c.mo) + 1 {
      DayAsked(s, i);
      DayAsked(s, j);
      hide CivilAt, DayInMonth, DaysInMonth;
      DayIsFirstPlus(c);
      DayIsFirstPlus(c');
      hide DayOf, DaysFromCivil;
      NextMonthApart(s, c.y, c.mo, c'.y, c'.mo);
    } else {
      hide CivilAt;
      MonthsSpanDays(c.y, c.mo, c'.y, c'.mo);
      DayIsFirstPlus(c);
      DayIsFirstPlus(c');
      hide DayOf, DaysFromCivil;
    }
  }

  /** How far later steps start later: their days apart, or a week, less the jump. */
  lemma VisitsApart(s: Series, i: nat, j: nat)
    requires ValidSeries(s) && i < j && VisitAt(s, i).At? && VisitAt(s, j).At?
    ensures VisitAt(s, j).start >= VisitAt(s, i).start + (if ByDays(s) then j - i else 7) * DAY - DstJump(s.zone)
  {
    hide CivilToEpoch, DstJump, DaysFromCivil, Due, ValidZone, ValidCivil, DayOf;
    if ByDays(s) {
      DayOfDayStep(s, i);
      DayOfDayStep(s, j);
    } else {
      MonthStepsApart(s, i, j);
    }
    hide CivilAt;
    DaysBetween(CivilAt(s, i).value, CivilAt(s, j).value);
    EpochSpread(s.zone, CivilAt(s, i).value, CivilAt(s, j).value);
  }

  lemma DaysBetween(c: Civil, c': Civil)
    requires ValidCivil(c) && ValidCivil(c')
    ensures DayOf(c') - DayOf(c) == DaysFromCivil(c'.y, c'.mo, c'.d) - DaysFromCivil(c.y, c.mo, c.d)
  {
  }

  /** The starts visited by a day loop, measured from DTSTART. */
  lemma DayVisitSpread(s: Series, i: nat)
    requires ValidSeries(s) && ByDays(s)
    ensures VisitAt(s, i).At?
    ensures var secs := VisitAt(s, i).start - DtStart(s);
            -DstJump(s.zone) <= secs - i * DAY <= DstJump(s.zone)
  {
    hide CivilAt, CivilToEpoch, DstJump, DaysFromCivil, Due, ValidZone, ValidCivil;
    DayOfDayStep(s, i);
    EpochSpread(s.zone, s.base, CivilAt(s, i).value);
  }

  // ----- The loop finds everything -----

  lemma {:induction false} MatchesConcat(s: Series, lo: nat, mid: nat, hi: nat)
    requires ValidSeries(s) && lo <= mid <= hi
    ensures Matches(s, lo, hi) == Matches(s, lo, mid) + Matches(s, mid, hi)
    decreases mid - lo
  {
    hide Qualifies, VisitAt, ValidSeries;
    if lo < mid {
      MatchesConcat(s, lo + 1, mid, hi);
    }
  }

  lemma {:induction false} MatchesQualify(s: Series, lo: nat, hi: nat, k: nat) returns (i: nat)
    requires ValidSeries(s) && k < |Matches(s, lo, hi)|
    ensures lo <= i < hi && Qualifies(s, i) && Matches(s, lo, hi)[k] == VisitAt(s, i).start
    decreases hi - lo
  {
    hide Qualifies, VisitAt, ValidSeries;
    if !Qualifies(s, lo) {
      i := MatchesQualify(s, lo + 1, hi, k);
    } else if k == 0 {
      i := lo;
    } else {
      i := MatchesQualify(s, lo + 1, hi, k - 1);
    }
  }

  /** Nothing from step lo on is wanted any more. */
  ghost predicate AllTooLate(s: Series, w: Window, lo: nat)
    requires ValidSeries(s)
  {
    forall i: nat :: lo <= i && VisitAt(s, i).At? ==> VisitAt(s, i).start >= w.end
  }

  lemma UnwantedWhenLate(t: Template, s: Series, lo: nat, hi: nat)
    requires ValidSeries(s) && AllTooLate(s, t.w, lo)
    ensures forall k :: 0 <= k < |Matches(s, lo, hi)| ==> !Wanted(t, Matches(s, lo, hi)[k])
  {
    hide VisitAt, ValidSeries;
    forall k | 0 <= k < |Matches(s, lo, hi)| ensures !Wanted(t, Matches(s, lo, hi)[k]) {
      var i := MatchesQualify(s, lo, hi, k);
    }
  }

  // ----- The first start past UNTIL -----

  predicate IsPast(s: Series, i: nat)
    requires ValidSeries(s)
  {
    VisitAt(s, i).At? && VisitAt(s, i).start > s.rule.until
  }

  /** By this step a day rule is past UNTIL. */
  function PastBound(s: Series): nat
    requires ValidSeries(s)
  {
    var span := s.rule.until - DtStart(s) + DstJump(s.zone);
    if span < 0 then 0 else Quotient(span, DAY) + 1
  }

  lemma BoundIsPast(s: Series)
    requires ValidSeries(s) && ByDays(s)
    ensures IsPast(s, PastBound(s))
  {
    DayVisitSpread(s, PastBound(s));
    hide DtStart, DstJump, ValidSeries, VisitAt;
  }

  /** The first step from a given one whose start is past UNTIL, found by going through them. */
  function FirstPast(s: Series, from: nat, bound: nat): nat
    requires ValidSeries(s)
    decreases bound - from
  {
    if from >= bound || IsPast(s, from) then from else FirstPast(s, from + 1, bound)
  }

  lemma {:induction false} FirstPastFrom(s: Series, from: nat, bound: nat)
    requires ValidSeries(s) && from <= bound
    ensures from <= FirstPast(s, from, bound) && (IsPast(s, bound) ==> IsPast(s, FirstPast(s, from, bound)))
    ensures forall i: nat :: from <= i < FirstPast(s, from, bound) ==> !IsPast(s, i)
    decreases bound - from
  {
    hide IsPast, ValidSeries;
    if from < bound && !IsPast(s, from) {
      FirstPastFrom(s, from + 1, bound);
    }
  }

  function PastStep(s: Series): nat
    requires ValidSeries(s)
  {
    FirstPast(s, 0, PastBound(s))
  }

  lemma PastStepIs(s: Series)
    requires ValidSeries(s) && ByDays(s)
    ensures IsPast(s, PastStep(s)) && forall i: nat :: i < PastStep(s) ==> !IsPast(s, i)
  {
    hide IsPast, ValidSeries, ByDays, PastBound, FirstPast;
    BoundIsPast(s);
    FirstPastFrom(s, 0, PastBound(s));
  }

  /**
   * The clock returns: one of the two steps after the first past UNTIL is due and not past it.
   * It takes a jump of more than a day.
   */
  predicate Returns(s: Series)
    requires ValidSeries(s)
  {
    Qualifies(s, PastStep(s) + 1) || Qualifies(s, PastStep(s) + 2)
  }

  lemma LongJumpReturns(s: Series)
    requires ValidSeries(s) && ByDays(s) && s.rule.until != 0
    ensures Returns(s) ==> DstJump(s.zone) > DAY
  {
    hide VisitAt, ValidSeries, DstJump, PastStep;
    var p := PastStep(s);
    PastStepIs(s);
    if Qualifies(s, p + 1) {
      VisitsApart(s, p, p + 1);
    } else if Qualifies(s, p + 2) {
      VisitsApart(s, p, p + 2);
    }
  }

  // With a jump up to three days, nothing later returns either.
  lemma NothingReturns(s: Series, lo: nat, i: nat)
    requires ValidSeries(s) && ByDays(s) && s.rule.until != 0 && DstJump(s.zone) <= 3 * DAY && lo < i
    ensures !Returns(s) && IsPast(s, lo) ==> !Qualifies(s, i)
  {
    hide VisitAt, ValidSeries, DstJump, PastStep;
    var p := PastStep(s);
    PastStepIs(s);
    assert IsPast(s, lo) ==> p <= lo;
    if i >= p + 3 && VisitAt(s, i).At? {
      VisitsApart(s, p, i);
    }
  }

  /** What a series tolerates: a jump up to three days, and no return once a day loop is past UNTIL. */
  predicate TolerableJump(s: Series)
    requires ValidSeries(s)
  {
    DstJump(s.zone) <= 3 * DAY && (s.rule.until != 0 && ByDays(s) ==> !Returns(s))
  }

  /** A jump of at most a day is always tolerable, and so is one of three days without UNTIL or by months. */
  lemma SmallJumpsTolerable(s: Series)
    requires ValidSeries(s)
    requires DstJump(s.zone) <= (if s.rule.until == 0 || !ByDays(s) then 3 * DAY else DAY)
    ensures TolerableJump(s)
  {
    hide ValidSeries, DstJump, Returns;
    if s.rule.until != 0 && ByDays(s) && Returns(s) {
      LongJumpReturns(s);
    }
  }

  // Past the horizon nothing later can be in the window.
  lemma PastHorizon(s: Series, w: Window, lo: nat)
    requires ValidSeries(s) && TolerableJump(s)
    requires VisitAt(s, lo).At? && VisitAt(s, lo).start > w.end + 2 * DAY
    ensures AllTooLate(s, w, lo)
  {
    hide VisitAt, ValidSeries, Returns, ByDays;
    forall i: nat | lo < i && VisitAt(s, i).At? ensures VisitAt(s, i).start >= w.end {
      VisitsGoForward(s, lo, i);
    }
  }

  // Past UNTIL nothing later qualifies.
  lemma PastUntil(s: Series, lo: nat, hi: nat)
    requires ValidSeries(s) && TolerableJump(s)
    requires VisitAt(s, lo).At? && s.rule.until != 0 && VisitAt(s, lo).start > s.rule.until
    ensures Matches(s, lo, hi) == []
  {
    hide VisitAt, ValidSeries, Returns;
    if Matches(s, lo, hi) != [] {
      var i := MatchesQualify(s, lo, hi, 0);
      if lo < i {
        if ByDays(s) {
          NothingReturns(s, lo, i);
        } else {
          VisitsApart(s, lo, i);
        }
      }
    }
  }

  /** The loop's breaks and COUNT bookkeeping emit what the plain list emits. */
  lemma {:induction false} ScanComplete(t: Template, sink: Sink, s: Series, lo: nat, hi: nat, remaining: int)
    requires ValidSeries(s) && TolerableJump(s)
    ensures EmitAll(t, sink, Scan(s, lo, hi, remaining, t.w.end + 2 * DAY))
         == EmitAll(t, sink, Limited(Matches(s, lo, hi), remaining))
    decreases hi - lo
  {
    hide VisitAt, ValidSeries, Emit, TolerableJump;
    if lo < hi {
      var v := VisitAt(s, lo);
      var m, m' := Matches(s, lo, hi), Matches(s, lo + 1, hi);
      if v.Skip? {
        assert m == m';
        ScanComplete(t, sink, s, lo + 1, hi, remaining);
      } else if v.start > t.w.end + 2 * DAY {
        PastHorizon(s, t.w, lo);
        UnwantedWhenLate(t, s, lo, hi);
        EmitNoneWanted(t, sink, Limited(m, remaining));
      } else if s.rule.until != 0 && v.start > s.rule.until {
        PastUntil(s, lo, hi);
      } else if remaining == 0 {
        assert Limited(m, 0) == [];
      } else if v.due {
        var rest := if remaining > 0 then remaining - 1 else remaining;
        assert m == [v.start] + m';
        LimitedCons(v.start, m', remaining);
        ScanComplete(t, Emit(t, sink, v.start), s, lo + 1, hi, rest);
        EmitAllCons(t, sink, v.start, Limited(m', rest));
        EmitAllCons(t, sink, v.start, Scan(s, lo + 1, hi, rest, t.w.end + 2 * DAY));
      } else {
        assert m == m';
        ScanComplete(t, sink, s, lo + 1, hi, remaining);
      }
    }
  }

  lemma LimitedCons(x: int, m: seq<int>, count: int)
    requires count != 0
    ensures Limited([x] + m, count) == [x] + Limited(m, if count > 0 then count - 1 else count)
    ensures Limited(m, 0) == []
  {
  }

  lemma EmitAllCons(t: Template, sink: Sink, x: int, rest: seq<int>)
    ensures EmitAll(t, sink, [x] + rest) == EmitAll(t, Emit(t, sink, x), rest)
  {
    assert ([x] + rest)[1..] == rest;
  }

  // ----- Weekly rules and the cycle of a day rule -----

  /** Number of the week that starts on a Monday; the week of 1 January 1970 is week 0. */
  function MondayWeek(dayNum: int): int {
    (dayNum + 3) / 7
  }

  lemma WeekSplit(dayNum: int, n: nat)
    ensures var dow := WeekdayOf(dayNum);
            && 0 <= dow < 7
            && (n + dow) / 7 == MondayWeek(dayNum + n) - MondayWeek(dayNum)
            && (n + dow) % 7 == WeekdayOf(dayNum + n)
  {
    WeekdayIsMod(dayNum);
    WeekdayIsMod(dayNum + n);
    hide WeekdayOf;
    var q, r := (dayNum + 3) / 7, (dayNum + 3) % 7;
    var q', r' := (dayNum + n + 3) / 7, (dayNum + n + 3) % 7;
    DivUnique(n + r, 7, q' - q, r');
  }

  /**
   * A weekly rule is due on the days whose weekday is listed, or is DTSTART's when none is, and whose
   * week, counted from Monday, is a multiple of INTERVAL after the week of DTSTART.
   */
  lemma WeeklyDue(s: Series, n: nat)
    requires ValidSeries(s) && s.rule.freq.Weekly?
    ensures Due(s, n) <==>
            && (if s.rule.byday == {} then WeekdayOf(Day0(s) + n) == WeekdayOf(Day0(s))
                else WeekdayOf(Day0(s) + n) in s.rule.byday)
            && (MondayWeek(Day0(s) + n) - MondayWeek(Day0(s))) % s.rule.interval == 0
  {
    hide WeekdayOf, MondayWeek, Day0, ValidZone, ValidCivil, TruncDiv, TruncMod;
    WeekSplit(Day0(s), n);
    var m := n + WeekdayOf(Day0(s));
    TruncNonNegative(m, 7);
    TruncNonNegative(m / 7, s.rule.interval);
  }

  /** Without BYDAY that is every INTERVAL weeks to the day. */
  lemma WeeklyWithoutByday(s: Series, n: nat)
    requires ValidSeries(s) && s.rule.freq.Weekly? && s.rule.byday == {}
    ensures Due(s, n) <==> n % (7 * s.rule.interval) == 0
  {
    hide WeekdayOf, MondayWeek, Day0, ValidZone, ValidCivil, Due;
    WeeklyDue(s, n);
    WeekSplit(Day0(s), n);
    WeekdayIsMod(Day0(s));
    var q, r := n / 7, n % 7;
    var dow := WeekdayOf(Day0(s));
    if dow + r < 7 {
      DivUnique(n + dow, 7, q, dow + r);
    } else {
      DivUnique(n + dow, 7, q + 1, dow + r - 7);
    }
    WholeWeeks(n, s.rule.interval);
  }

  lemma WholeWeeks(n: nat, interval: int)
    requires interval >= 1
    ensures n % (7 * interval) == 0 <==> n % 7 == 0 && (n / 7) % interval == 0
  {
    var k, r := (n / 7) / interval, (n / 7) % interval;
    assert n / 7 == interval * k + r && n == 7 * (n / 7) + n % 7;
    assert 7 * (interval * k) == k * (7 * interval);
    DivUnique(n, 7 * interval, k, 7 * r + n % 7);
  }

  lemma ModShift(a: int, b: int)
    requires b >= 1
    ensures (a + b) % b == a % b
  {
    DivUnique(a + b, b, a / b + 1, a % b);
  }

  lemma DueRepeats(s: Series, n: nat)
    requires ValidSeries(s) && ByDays(s)
    ensures Due(s, n + Step(s)) <==> Due(s, n)
  {
    if s.rule.freq.Daily? {
      hide ValidZone, ValidCivil;
      ModShift(n, s.rule.interval);
    } else {
      hide Due, WeekdayOf, MondayWeek, Day0, ValidZone, ValidCivil;
      WeeklyDue(s, n);
      WeeklyDue(s, n + Step(s));
      WeeksLater(Day0(s) + n, s.rule.interval);
      ModShift(MondayWeek(Day0(s) + n) - MondayWeek(Day0(s)), s.rule.interval);
    }
  }

  lemma WeeksLater(dayNum: int, k: nat)
    ensures MondayWeek(dayNum + 7 * k) == MondayWeek(dayNum) + k
    ensures WeekdayOf(dayNum + 7 * k) == WeekdayOf(dayNum)
  {
    WeekdayIsMod(dayNum);
    WeekdayIsMod(dayNum + 7 * k);
    hide WeekdayOf;
    DivUnique(dayNum + 7 * k + 3, 7, (dayNum + 3) / 7 + k, (dayNum + 3) % 7);
  }

  /** The last due day of the first upTo days after DTSTART, or -1. */
  function LastDue(s: Series, upTo: nat): (n: int)
    requires ValidSeries(s)
    ensures -1 <= n < upTo
  {
    if upTo == 0 then -1
    else if Due(s, upTo - 1) then upTo - 1
    else LastDue(s, upTo - 1)
  }

  lemma {:induction false} LastDueIs(s: Series, upTo: nat)
    requires ValidSeries(s)
    ensures LastDue(s, upTo) >= 0 ==> Due(s, LastDue(s, upTo))
    ensures forall i: nat :: i < upTo && Due(s, i) ==> i <= LastDue(s, upTo)
  {
    hide Due, ValidSeries;
    if upTo > 0 {
      LastDueIs(s, upTo - 1);
    }
  }

  /** From the last due day of a cycle to the end of the cycle. */
  function Gap(s: Series): (g: int)
    requires ValidSeries(s)
    ensures g >= 1
  {
    Step(s) - LastDue(s, Step(s))
  }

  lemma {:induction false} LastDueBefore(s: Series, n: nat, i: nat)
    requires ValidSeries(s) && ByDays(s) && i < n && n % Step(s) == 0
    ensures Due(s, i) ==> i <= n - Gap(s)
    decreases n
  {
    hide Due, Step, ValidSeries, ByDays, LastDue;
    var step := Step(s);
    MultipleAtLeast(n, step);
    LastDueIs(s, step);
    if n > step {
      ModShift(n - step, step);
      if i >= n - step {
        DueCycle(s, i, n - step);
      } else {
        LastDueBefore(s, n - step, i);
      }
    }
  }

  lemma MultipleAtLeast(n: nat, step: int)
    requires step >= 1 && n > 0 && n % step == 0
    ensures n >= step
  {
  }

  lemma {:induction false} DueCycle(s: Series, i: nat, m: nat)
    requires ValidSeries(s) && ByDays(s) && m % Step(s) == 0 && i >= m
    ensures Due(s, i) <==> Due(s, i - m)
    decreases m
  {
    hide Due, Step, ValidSeries, ByDays;
    var step := Step(s);
    if m > 0 {
      MultipleAtLeast(m, step);
      ModShift(m - step, step);
      DueRepeats(s, i - step);
      DueCycle(s, i - step, m - step);
    }
  }

  /** Whether fast-forwarding may skip: the event is over before the two days left in hand are. */
  predicate ShortEnough(s: Series, w: Window, duration: int)
    requires ValidSeries(s)
  {
    FastForward(s, w) > 0 ==> duration + DstJump(s.zone) <= (2 + Gap(s)) * DAY
  }

  /** Three days are always short enough. */
  lemma ThreeDaysAreShort(s: Series, w: Window, duration: int)
    requires ValidSeries(s) && duration + DstJump(s.zone) <= 3 * DAY
    ensures ShortEnough(s, w, duration)
  {
    hide ValidSeries, FastForward, DstJump, Due, Step;
  }

  // ----- The iteration caps -----

  /** The first day of a month, months being numbered from year 0. */
  function FirstOfMonth(index: int): int {
    DaysFromCivil(index / 12, index % 12 + 1, 1)
  }

  lemma FirstOfMonthIs(y: int, m: int)
    requires 1 <= m <= 12
    ensures FirstOfMonth(MonthIndex(y, m)) == DaysFromCivil(y, m, 1)
  {
    hide DaysFromCivil;
  }

  lemma FirstsIncrease(a: int, b: int)
    requires a <= b
    ensures FirstOfMonth(a) <= FirstOfMonth(b)
  {
    hide DaysFromCivil, DaysInMonth;
    if a < b {
      FirstDayIncreases(a / 12, a % 12 + 1, b / 12, b % 12 + 1);
      SomeDays(a / 12, a % 12 + 1);
    }
  }

  lemma SomeDays(y: int, m: int)
    requires 1 <= m <= 12
    ensures DaysInMonth(y, m) > 0
  {
  }

  /** The month that the loop over months or years would look at next. */
  function CapMonth(s: Series, w: Window): int
    requires ValidSeries(s) && !ByDays(s)
  {
    MonthIndex(s.base.y, s.base.mo) + ScanEnd(s, w) * s.rule.interval * if s.rule.freq.Monthly? then 1 else 12
  }

  /** The window ends before the iteration cap can be felt. */
  predicate WithinCap(s: Series, w: Window)
    requires ValidSeries(s)
  {
    w.end <= DtStart(s) - DstJump(s.zone)
             + (if ByDays(s) then ScanEnd(s, w) else FirstOfMonth(CapMonth(s, w)) - Day0(s)) * DAY
  }

  lemma {:induction false} MonthsSpanDays(y: int, m: int, y': int, m': int)
    requires 1 <= m <= 12 && 1 <= m' <= 12
    requires MonthIndex(y, m) <= MonthIndex(y', m')
    ensures DaysFromCivil(y', m', 1) - DaysFromCivil(y, m, 1)
         >= 28 * (MonthIndex(y', m') - MonthIndex(y, m))
    decreases MonthIndex(y', m') - MonthIndex(y, m)
  {
    hide DaysFromCivil, DaysInMonth;
    if MonthIndex(y, m) < MonthIndex(y', m') {
      var ny, nm := if m < 12 then y else y + 1, if m < 12 then m + 1 else 1;
      FirstDayIncreases(y, m, ny, nm);
      MonthsSpanDays(ny, nm, y', m');
    } else {
      assert y == y' && m == m';
    }
  }

  // The month of a capped step is that month or a later one.
  lemma CappedDay(s: Series, w: Window, i: nat)
    requires ValidSeries(s) && !ByDays(s) && i >= ScanEnd(s, w) && CivilAt(s, i).Some?
    ensures DayOf(CivilAt(s, i).value) >= FirstOfMonth(CapMonth(s, w))
  {
    var c := CivilAt(s, i).value;
    MonthOfStep(s, i);
    StepsMultiply(s.rule.interval, ScanEnd(s, w), i);
    hide CivilAt, DaysFromCivil, DaysInMonth, ValidZone, ScanEnd, FirstOfMonth, MonthIndex;
    FirstsIncrease(CapMonth(s, w), MonthIndex(c.y, c.mo));
    FirstOfMonthIs(c.y, c.mo);
    DayIsFirstPlus(c);
  }

  lemma MonthVisitLate(s: Series, w: Window, i: nat)
    requires ValidSeries(s) && !ByDays(s) && i >= ScanEnd(s, w) && VisitAt(s, i).At?
    ensures VisitAt(s, i).start >= DtStart(s) + (FirstOfMonth(CapMonth(s, w)) - Day0(s)) * DAY - DstJump(s.zone)
  {
    hide CivilToEpoch, DstJump, DaysFromCivil, DaysInMonth, Due, ValidZone, ScanEnd, CapMonth, CivilAt, FirstOfMonth;
    CappedDay(s, w, i);
    EpochSpread(s.zone, s.base, CivilAt(s, i).value);
  }

  lemma CapIsLate(s: Series, w: Window)
    requires ValidSeries(s) && WithinCap(s, w)
    ensures AllTooLate(s, w, ScanEnd(s, w))
  {
    hide VisitAt, DtStart, ValidSeries, ScanEnd, ByDays;
    forall i: nat | ScanEnd(s, w) <= i && VisitAt(s, i).At? ensures VisitAt(s, i).start >= w.end {
      if ByDays(s) {
        DayVisitSpread(s, i);
      } else {
        MonthVisitLate(s, w, i);
      }
    }
  }

  /** A day loop under the cap: one step and the window together stay below 40000 days. */
  lemma WindowUnderCap(s: Series, w: Window)
    requires ValidSeries(s) && ByDays(s) && s.rule.count < 0
    requires Step(s) * DAY + (w.end - w.start) + 3 * DAY + DstJump(s.zone) <= 40000 * DAY
    ensures WithinCap(s, w)
  {
    hide DtStart, DstJump, ValidSeries, Step;
    if w.start > DtStart(s) {
      var daysAhead := (w.start - DtStart(s)) / DAY - 2;
      assert w.start - DtStart(s) < (daysAhead + 3) * DAY;
    }
  }

  lemma CappedMonths(s: Series, w: Window, i: nat)
    requires ValidSeries(s) && !ByDays(s) && i >= ScanEnd(s, w)
    ensures i * s.rule.interval >= if s.rule.freq.Monthly? then 1200 else 100
  {
    assert s.rule.interval >= 1;
    hide FastForward, ValidSeries;
    StepsBelow(if s.rule.freq.Monthly? then MAX_MONTH_ITERATIONS else MAX_YEAR_ITERATIONS, s.rule.interval, i);
  }

  /** A loop over months or years is under the cap for the hundred years that follow DTSTART's month. */
  lemma CenturyUnderCap(s: Series, w: Window)
    requires ValidSeries(s) && !ByDays(s)
    requires w.end <= DtStart(s) + (DaysFromCivil(s.base.y + 100, s.base.mo, 1) - Day0(s)) * DAY - DstJump(s.zone)
    ensures WithinCap(s, w)
  {
    hide DaysFromCivil, ValidSeries, ScanEnd, DtStart, DstJump, FirstOfMonth, Day0, CapMonth, ByDays, MonthIndex;
    CapMonthFar(s, w);
    FirstsIncrease(MonthIndex(s.base.y + 100, s.base.mo), CapMonth(s, w));
    MonthIsCivil(s);
    FirstOfMonthIs(s.base.y + 100, s.base.mo);
  }

  lemma MonthIsCivil(s: Series)
    requires ValidSeries(s)
    ensures 1 <= s.base.mo <= 12
  {
  }

  lemma CapMonthFar(s: Series, w: Window)
    requires ValidSeries(s) && !ByDays(s)
    ensures CapMonth(s, w) >= MonthIndex(s.base.y + 100, s.base.mo)
  {
    CappedMonths(s, w, ScanEnd(s, w));
    hide ValidSeries, ScanEnd;
  }

  // The window's room plays no part in what the loop hands out.
  lemma SameLoop(s: Series, w: Window, w': Window)
    requires ValidSeries(s) && w'.start == w.start && w'.end == w.end
    ensures LoopStarts(s, w') == LoopStarts(s, w) && ScanEnd(s, w') == ScanEnd(s, w) && FastForward(s, w') == FastForward(s, w)
    ensures WithinCap(s, w') <==> WithinCap(s, w)
  {
    hide Scan, DtStart, Step, ValidSeries, DstJump;
  }

  // ----- One turn of the loop -----

  lemma {:induction false} NothingLeft(t: Template, sink: Sink, s: Series, lo: nat, hi: nat, remaining: int, horizon: int)
    requires ValidSeries(s) && (remaining == 0 || lo >= hi)
    ensures Scan(s, lo, hi, remaining, horizon) == []
    ensures EmitAll(t, sink, Scan(s, lo, hi, remaining, horizon)) == sink
    decreases hi - lo
  {
    hide VisitAt, ValidSeries;
    if lo < hi {
      NothingLeft(t, sink, s, lo + 1, hi, remaining, horizon);
    }
  }

  lemma ScanStep(t: Template, sink: Sink, s: Series, lo: nat, hi: nat, remaining: int, horizon: int)
    requires ValidSeries(s) && lo < hi
    ensures var v := VisitAt(s, lo);
            var rest := if remaining > 0 then remaining - 1 else remaining;
            EmitAll(t, sink, Scan(s, lo, hi, remaining, horizon)) ==
            if v.Skip? then EmitAll(t, sink, Scan(s, lo + 1, hi, remaining, horizon))
            else if v.start > horizon || (s.rule.until != 0 && v.start > s.rule.until) || remaining == 0 then sink
            else if v.due then EmitAll(t, Emit(t, sink, v.start), Scan(s, lo + 1, hi, rest, horizon))
            else EmitAll(t, sink, Scan(s, lo + 1, hi, remaining, horizon))
  {
    hide VisitAt, ValidSeries, Emit;
    var v := VisitAt(s, lo);
    if v.At? {
      EmitAllCons(t, sink, v.start, Scan(s, lo + 1, hi, if remaining > 0 then remaining - 1 else remaining, horizon));
    }
  }

  lemma DayVisit(s: Series, n: nat)
    requires ValidSeries(s) && ByDays(s)
    ensures VisitAt(s, n) == At(OccurrenceAt(s.zone, s.base, Day0(s) + n), Due(s, n))
  {
    hide Due, Day0, CivilToEpoch, DtStart, ValidZone, ValidCivil;
  }

  lemma MonthVisit(s: Series, i: nat)
    requires ValidSeries(s) && s.rule.freq.Monthly?
    ensures var k := s.base.mo + i * s.rule.interval - 1;
            var y, m := s.base.y + TruncDiv(k, 12), TruncMod(k, 12) + 1;
            && 1 <= m <= 12
            && var d := DayInMonth(s, y, m);
               if d < 1 || d > DaysInMonth(y, m) then VisitAt(s, i) == Skip
               else
                 var start := CivilToEpoch(s.zone, s.base.(y := y, mo := m, d := d));
                 VisitAt(s, i) == if start < DtStart(s) then Skip else At(start, true)
  {
    hide DayInMonth, DaysInMonth, CivilToEpoch, DtStart, ValidZone, TruncDiv;
    MonthsInRange(s, i);
  }

  lemma YearVisit(s: Series, i: nat)
    requires ValidSeries(s) && s.rule.freq.Yearly?
    ensures var y := s.base.y + i * s.rule.interval;
            if s.base.d > DaysInMonth(y, s.base.mo) then VisitAt(s, i) == Skip
            else VisitAt(s, i) == At(CivilToEpoch(s.zone, s.base.(y := y)), true)
  {
    hide DaysInMonth, CivilToEpoch, DtStart, ValidZone;
  }

  // The guard of the month and year loops, in steps.
  lemma StepsBelow(cap: nat, interval: int, i: nat)
    requires cap >= 1 && interval >= 1
    ensures i * interval < cap <==> i < (cap - 1) / interval + 1
  {
    var q := (cap - 1) / interval;
    assert cap - 1 == interval * q + (cap - 1) % interval;
    if i <= q {
      StepsMultiply(interval, i, q);
    } else {
      StepsMultiply(interval, q + 1, i);
    }
  }

  // ----- The main results -----

  // A skipped step that is due ends before the window starts.
  lemma SkippedUnwanted(t: Template, s: Series)
    requires ValidSeries(s) && ShortEnough(s, t.w, t.duration)
    ensures forall k :: 0 <= k < |Matches(s, 0, FastForward(s, t.w))|
              ==> !Wanted(t, Matches(s, 0, FastForward(s, t.w))[k])
  {
    hide VisitAt, ValidSeries, DtStart, ByDays, DstJump, Due, Step;
    var n := FastForward(s, t.w);
    FastForwardIs(s, t.w);
    hide FastForward;
    forall k | 0 <= k < |Matches(s, 0, n)| ensures !Wanted(t, Matches(s, 0, n)[k]) {
      var i := MatchesQualify(s, 0, n, k);
      VisitedIsDue(s, i);
      LastDueBefore(s, n, i);
      DayVisitSpread(s, i);
    }
  }

  lemma VisitedIsDue(s: Series, i: nat)
    requires ValidSeries(s) && ByDays(s)
    ensures Qualifies(s, i) ==> Due(s, i)
  {
    hide CivilAt, Due, ValidZone, ValidCivil;
  }

  lemma LimitedConcat(a: seq<int>, b: seq<int>, count: int) returns (b': seq<int>)
    ensures Limited(a + b, count) == Limited(a, count) + b'
    ensures b' <= b
  {
    if count < 0 || |a + b| < count {
      b' := b;
    } else if count <= |a| {
      b' := [];
    } else {
      b' := b[..count - |a|];
    }
  }

  /** What fast-forward skips is not wanted. */
  ghost predicate SkipsNothing(t: Template, s: Series)
    requires ValidSeries(s)
  {
    forall k :: 0 <= k < |Matches(s, 0, FastForward(s, t.w))| ==> !Wanted(t, Matches(s, 0, FastForward(s, t.w))[k])
  }

  // Breaks and cap lose nothing of what comes after the skipped steps.
  lemma LoopComplete(t: Template, sink: Sink, s: Series, horizon: nat)
    requires ValidSeries(s) && TolerableJump(s) && WithinCap(s, t.w)
    requires horizon >= ScanEnd(s, t.w) && SkipsNothing(t, s)
    ensures EmitAll(t, sink, LoopStarts(s, t.w))
         == EmitAll(t, sink, Limited(Matches(s, 0, horizon), s.rule.count))
  {
    hide VisitAt, ValidSeries, WithinCap, TolerableJump, Wanted, Emit, EmitAll, Matches, Scan, Limited;
    hide FastForward, ScanEnd, ByDays, DtStart, DstJump, AllTooLate;
    CapIsLate(s, t.w);
    FastForwardIs(s, t.w);
    LoopBounds(s, t.w);
    var lo, hi, c := FastForward(s, t.w), ScanEnd(s, t.w), s.rule.count;
    ScanComplete(t, sink, s, lo, hi, c);
    MatchesConcat(s, 0, lo, horizon);
    MatchesConcat(s, lo, hi, horizon);
    var skipped, found, late := Matches(s, 0, lo), Matches(s, lo, hi), Matches(s, hi, horizon);
    UnwantedWhenLate(t, s, hi, horizon);
    EmitLimitedMiddle(t, sink, skipped, found, late, c);
    if lo == 0 {
      assert Matches(s, 0, 0) == [] by { EmptyMatches(s); }
    }
  }

  /**
   * Fast-forward, breaks and cap lose nothing: the parser emits what emitting the whole
   * list of due starts from DTSTART would, cut to COUNT before EXDATE and window filter.
   */
  lemma ExpansionComplete(t: Template, sink: Sink, s: Series, horizon: nat)
    requires ValidSeries(s) && TolerableJump(s) && WithinCap(s, t.w)
    requires horizon >= ScanEnd(s, t.w) && ShortEnough(s, t.w, t.duration)
    ensures EmitAll(t, sink, LoopStarts(s, t.w))
         == EmitAll(t, sink, Limited(Matches(s, 0, horizon), s.rule.count))
  {
    SkippedUnwanted(t, s);
    hide ValidSeries, TolerableJump, WithinCap, ShortEnough, EmitAll, LoopStarts, Matches, ScanEnd, FastForward, Wanted;
    LoopComplete(t, sink, s, horizon);
  }

  /**
   * Rules by day without COUNT, in the terms a feed is written in: events of at most three days
   * less the jump, and a step and window that together stay under the 40000 days of the cap.
   * With UNTIL, the clock must not return.
   */
  lemma DayRulesExact(t: Template, sink: Sink, s: Series, horizon: nat)
    requires ValidSeries(s) && ByDays(s) && s.rule.count < 0 && (s.rule.until != 0 ==> !Returns(s))
    requires DstJump(s.zone) <= 3 * DAY && t.duration + DstJump(s.zone) <= 3 * DAY
    requires Step(s) * DAY + (t.w.end - t.w.start) + 3 * DAY + DstJump(s.zone) <= 40000 * DAY
    requires horizon >= ScanEnd(s, t.w)
    ensures EmitAll(t, sink, LoopStarts(s, t.w)) == EmitAll(t, sink, Matches(s, 0, horizon))
  {
    hide ValidSeries, ByDays, Returns, DstJump, Step, ScanEnd, EmitAll, LoopStarts, Matches, WithinCap, ShortEnough;
    ThreeDaysAreShort(s, t.w, t.duration);
    WindowUnderCap(s, t.w);
    ExpansionComplete(t, sink, s, horizon);
  }

  lemma LoopBounds(s: Series, w: Window)
    requires ValidSeries(s)
    ensures FastForward(s, w) <= ScanEnd(s, w)
  {
  }

  lemma EmptyMatches(s: Series)
    requires ValidSeries(s)
    ensures Matches(s, 0, 0) == []
  {
  }

  lemma EmitLimitedMiddle(t: Template, sink: Sink, skipped: seq<int>, found: seq<int>, late: seq<int>, count: int)
    requires forall k :: 0 <= k < |skipped| ==> !Wanted(t, skipped[k])
    requires forall k :: 0 <= k < |late| ==> !Wanted(t, late[k])
    ensures skipped == [] || count < 0
            ==> EmitAll(t, sink, Limited(skipped + (found + late), count)) == EmitAll(t, sink, Limited(found, count))
  {
    hide Wanted, EmitAll;
    var late' := LimitedConcat(found, late, count);
    EmitAllConcat(t, sink, Limited(found, count), late');
    EmitNoneWanted(t, EmitAll(t, sink, Limited(found, count)), late');
    if skipped == [] {
      assert skipped + (found + late) == found + late;
    } else {
      EmitAllConcat(t, sink, skipped, found + late);
      EmitNoneWanted(t, sink, skipped);
    }
  }

  /** The loop hands out a prefix of the due starts. */
  lemma {:induction false} ScanIsPrefix(s: Series, lo: nat, hi: nat, remaining: int, horizon: int)
    requires ValidSeries(s)
    ensures Scan(s, lo, hi, remaining, horizon) <= Matches(s, lo, hi)
    decreases hi - lo
  {
    hide VisitAt, ValidSeries;
    if lo < hi {
      if VisitAt(s, lo).At? && VisitAt(s, lo).due {
        ScanIsPrefix(s, lo + 1, hi, if remaining > 0 then remaining - 1 else remaining, horizon);
      } else {
        ScanIsPrefix(s, lo + 1, hi, remaining, horizon);
      }
    }
  }

  /** With a jump under one day the due starts strictly increase. */
  lemma {:induction false} MatchesIncrease(s: Series, lo: nat, hi: nat)
    requires ValidSeries(s) && DstJump(s.zone) < DAY
    ensures Increasing(Matches(s, lo, hi))
    decreases hi - lo
  {
    hide VisitAt, ValidSeries, DstJump;
    if lo < hi {
      var rest := Matches(s, lo + 1, hi);
      MatchesIncrease(s, lo + 1, hi);
      if Qualifies(s, lo) {
        forall k | 0 <= k < |rest| ensures VisitAt(s, lo).start < rest[k] {
          var i := MatchesQualify(s, lo + 1, hi, k);
          VisitsGoForward(s, lo, i);
        }
      }
    }
  }

  /** One VEVENT never emits two occurrences with the same start. */
  lemma NoStartTwice(t: Template, sink: Sink, s: Series)
    requires ValidSeries(s) && DstJump(s.zone) < DAY
    ensures var out := EmitAll(t, sink, LoopStarts(s, t.w)).out;
            && sink.out <= out
            && forall i, j :: |sink.out| <= i < j < |out| ==> out[i].start < out[j].start
  {
    hide VisitAt, ValidSeries, DstJump, FastForward, ScanEnd, Wanted, Emit, Fitting;
    var starts := LoopStarts(s, t.w);
    ScanIsPrefix(s, FastForward(s, t.w), ScanEnd(s, t.w), s.rule.count, t.w.end + 2 * DAY);
    MatchesIncrease(s, FastForward(s, t.w), ScanEnd(s, t.w));
    hide Scan, Matches, LoopStarts;
    WantedIncrease(t, starts);
    EmitAllAppends(t, sink, starts);
  }
}
