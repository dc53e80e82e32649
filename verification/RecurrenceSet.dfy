/**
 * What a rule means on the calendar, with no loop and no step: which local dates and times recur,
 * and that those are the starts that the parser hands out.
 */
module RecurrenceSet {
  import opened Options
  import opened CArith
  import opened CivilDate
  import opened Weekdays
  import opened Zones
  import opened CalendarEvents
  import opened Recurrence

  predicate SameClock(a: Civil, b: Civil) {
    a.h == b.h && a.mi == b.mi && a.s == b.s
  }

  /** The day of the month that a monthly rule asks for: an ordinal weekday, BYMONTHDAY, or DTSTART's day. */
  predicate OnMonthDay(s: Series, c: Civil)
    requires ValidCivil(c)
  {
    if s.rule.byday != {} then
      var wd := WeekdayOf(DayOf(c));
      var nth, total := CountInMonth(c.y, c.mo, c.d, wd), HowMany(c.y, c.mo, wd);
      && wd in s.rule.byday && (forall e :: e in s.rule.byday ==> e <= wd)
      && if s.rule.bydayOrd > 0 then nth == s.rule.bydayOrd
         else if s.rule.bydayOrd == 0 then nth == 1
         else total + 1 - nth == -s.rule.bydayOrd
    else if s.rule.bymonthday > 0 then c.d == s.rule.bymonthday
    else if s.rule.bymonthday < 0 then DaysInMonth(c.y, c.mo) + 1 - c.d == -s.rule.bymonthday
    else c.d == s.base.d
  }

  /** The rule recurs at this local date and time. */
  predicate Recurs(s: Series, c: Civil)
    requires ValidSeries(s) && ValidCivil(c)
  {
    var days := DayOf(c) - DayOf(s.base);
    var months := MonthIndex(c.y, c.mo) - MonthIndex(s.base.y, s.base.mo);
    SameClock(c, s.base) &&
    match s.rule.freq
    case Daily => days >= 0 && days % s.rule.interval == 0
    case Weekly =>
      var wd := WeekdayOf(DayOf(c));
      && days >= 0
      && (if s.rule.byday == {} then wd == WeekdayOf(DayOf(s.base)) else wd in s.rule.byday)
      && (MondayWeek(DayOf(c)) - MondayWeek(DayOf(s.base))) % s.rule.interval == 0
    case Monthly =>
      && months >= 0 && months % s.rule.interval == 0 && OnMonthDay(s, c)
      && CivilToEpoch(s.zone, c) >= CivilToEpoch(s.zone, s.base)
    case Yearly =>
      && c.y >= s.base.y && (c.y - s.base.y) % s.rule.interval == 0 && c.mo == s.base.mo && c.d == s.base.d
  }

  // ----- The day of the month -----

  lemma {:induction false} CountMono(first: int, a: nat, b: nat, wday: int)
    requires a <= b
    ensures CountWeekday(first, a, wday) <= CountWeekday(first, b, wday)
    decreases b
  {
    hide WeekdayOf;
    if a < b {
      CountMono(first, a, b - 1, wday);
    }
  }

  // No two days of a month have the same weekday and ordinal.
  lemma OneNth(first: int, a: nat, b: nat, wday: int)
    requires 1 <= a && 1 <= b && WeekdayOf(first + a - 1) == wday == WeekdayOf(first + b - 1)
    requires CountWeekday(first, a, wday) == CountWeekday(first, b, wday)
    ensures a == b
  {
    hide WeekdayOf;
    if a != b {
      var lo, hi := if a < b then a else b, if a < b then b else a;
      CountMono(first, lo, hi - 1, wday);
    }
  }

  lemma NthIsMonthlyDay(c: Civil, wd: int, ord: int)
    requires ValidCivil(c) && 0 <= wd < 7
    ensures c.d == MonthlyDay(c.y, c.mo, wd, ord) <==>
            WeekdayOf(DayOf(c)) == wd &&
            var nth, total := CountInMonth(c.y, c.mo, c.d, wd), HowMany(c.y, c.mo, wd);
            if ord > 0 then nth == ord else if ord == 0 then nth == 1 else total + 1 - nth == -ord
  {
    hide Ahead, WeekdayOf, CountWeekday, DaysInMonth, MonthlyDay, DaysFromCivil;
    DayIsFirstPlus(c);
    var first, day := FirstDay(c.y, c.mo), MonthlyDay(c.y, c.mo, wd, ord);
    CountMono(first, c.d, DaysInMonth(c.y, c.mo), wd);
    if ord < 0 {
      MonthlyDayFromEnd(c.y, c.mo, wd, -ord);
    } else {
      NoOrdinalIsFirst(c.y, c.mo, wd);
      MonthlyDayFromStart(c.y, c.mo, wd, if ord == 0 then 1 else ord);
    }
    if WeekdayOf(DayOf(c)) == wd {
      SomeCount(first, c.d, wd);
      if 1 <= day <= DaysInMonth(c.y, c.mo) && WeekdayOf(first + day - 1) == wd
         && CountWeekday(first, c.d, wd) == CountWeekday(first, day, wd) {
        OneNth(first, c.d, day, wd);
      }
    }
  }

  lemma SomeCount(first: int, d: nat, wd: int)
    requires d >= 1 && WeekdayOf(first + d - 1) == wd
    ensures CountWeekday(first, d, wd) >= 1
  {
    hide WeekdayOf;
  }

  /** The computed day of the month is the one the rule asks for. */
  lemma MonthDayIs(s: Series, c: Civil)
    requires ValidSeries(s) && ValidCivil(c)
    ensures c.d == DayInMonth(s, c.y, c.mo) <==> OnMonthDay(s, c)
  {
    hide MonthlyDay, ValidZone, ValidCivil, WeekdayOf, CountInMonth, HowMany, TargetWeekday, DaysInMonth;
    var wd := TargetWeekday(s.rule.byday, 6);
    if wd >= 0 {
      NthIsMonthlyDay(c, wd, s.rule.bydayOrd);
    }
  }

  // ----- Every step is a recurrence, and every recurrence a step -----

  /** How many steps of the rule lead to this date. */
  function StepTo(s: Series, c: Civil): int
    requires ValidSeries(s) && ValidCivil(c)
  {
    match s.rule.freq
    case Daily => DayOf(c) - DayOf(s.base)
    case Weekly => DayOf(c) - DayOf(s.base)
    case Monthly => (MonthIndex(c.y, c.mo) - MonthIndex(s.base.y, s.base.mo)) / s.rule.interval
    case Yearly => (c.y - s.base.y) / s.rule.interval
  }

  lemma SameDaySameDate(a: Civil, b: Civil)
    requires ValidCivil(a) && ValidCivil(b) && DayOf(a) == DayOf(b) && SameClock(a, b)
    ensures a == b
  {
    RoundTripDate(Date(a.y, a.mo, a.d));
    RoundTripDate(Date(b.y, b.mo, b.d));
    hide DaysFromCivil, CivilFromDays, DaysInMonth;
  }

  lemma MultipleDivides(i: int, k: int)
    requires k >= 1
    ensures (i * k) % k == 0 && (i * k) / k == i
  {
    DivUnique(i * k, k, i, 0);
  }

  lemma DividesIsMultiple(n: int, k: int)
    requires k >= 1 && n % k == 0
    ensures (n / k) * k == n && (n >= 0 ==> n / k >= 0)
  {
    assert n == k * (n / k) + n % k;
    MulBelow(k, n / k);
  }

  // A step of a rule by days.
  lemma DayStep(s: Series, i: nat)
    requires ValidSeries(s) && ByDays(s)
    ensures CivilAt(s, i).Some?
    ensures var c := CivilAt(s, i).value;
            && SameClock(c, s.base) && StepTo(s, c) == i && VisitAt(s, i) == At(CivilToEpoch(s.zone, c), Due(s, i))
            && (Recurs(s, c) <==> Due(s, i))
  {
    hide DaysFromCivil, ValidZone, CivilToEpoch, Due, WeekdayOf, MondayWeek, DtStart, CivilFromDays, DaysInMonth;
    DayOfDayStep(s, i);
    if s.rule.freq.Weekly? {
      WeeklyDue(s, i);
    } else {
      DailyDue(s, i);
    }
  }

  lemma DailyDue(s: Series, i: nat)
    requires ValidSeries(s) && s.rule.freq.Daily?
    ensures Due(s, i) <==> i % s.rule.interval == 0
  {
    hide ValidZone, ValidCivil;
  }

  lemma DayStepTo(s: Series, c: Civil)
    requires ValidSeries(s) && ByDays(s) && ValidCivil(c) && SameClock(c, s.base) && StepTo(s, c) >= 0
    ensures CivilAt(s, StepTo(s, c)) == Some(c)
  {
    hide DaysFromCivil, ValidZone, CivilToEpoch, Due, DaysInMonth, DayOf, CivilAt;
    DayOfDayStep(s, StepTo(s, c));
    DayStep(s, StepTo(s, c));
    DayZero(s);
    SameDaySameDate(CivilAt(s, StepTo(s, c)).value, c);
  }

  lemma DayZero(s: Series)
    requires ValidSeries(s)
    ensures DayOf(s.base) == Day0(s)
  {
    hide DaysFromCivil;
  }

  // A step of a monthly rule.
  lemma MonthStep(s: Series, i: nat)
    requires ValidSeries(s) && s.rule.freq.Monthly? && CivilAt(s, i).Some?
    ensures var c := CivilAt(s, i).value;
            && SameClock(c, s.base) && StepTo(s, c) == i && c.d == DayInMonth(s, c.y, c.mo)
            && MonthIndex(c.y, c.mo) - MonthIndex(s.base.y, s.base.mo) == i * s.rule.interval
            && VisitAt(s, i) == if CivilToEpoch(s.zone, c) < CivilToEpoch(s.zone, s.base) then Skip
                                else At(CivilToEpoch(s.zone, c), true)
  {
    hide DaysFromCivil, ValidZone, CivilToEpoch, DayInMonth, DaysInMonth, TruncDiv;
    MonthsInRange(s, i);
    MonthOfStep(s, i);
    MultipleDivides(i, s.rule.interval);
  }

  lemma MonthStepRecurs(s: Series, i: nat)
    requires ValidSeries(s) && s.rule.freq.Monthly? && CivilAt(s, i).Some?
    ensures VisitAt(s, i).At? <==> Recurs(s, CivilAt(s, i).value)
  {
    hide VisitAt, CivilAt, DaysFromCivil, ValidZone, CivilToEpoch, DayInMonth, DaysInMonth, OnMonthDay, WeekdayOf;
    MonthStep(s, i);
    MonthDayIs(s, CivilAt(s, i).value);
    MultipleDivides(i, s.rule.interval);
    ProductNonNegative(i, s.rule.interval);
  }

  lemma ProductNonNegative(i: nat, k: int)
    requires k >= 1
    ensures i * k >= 0
  {
  }

  lemma MonthStepTo(s: Series, c: Civil)
    requires ValidSeries(s) && s.rule.freq.Monthly? && ValidCivil(c) && Recurs(s, c)
    ensures StepTo(s, c) >= 0 && CivilAt(s, StepTo(s, c)) == Some(c)
  {
    hide DaysFromCivil, ValidZone, CivilToEpoch, DayInMonth, DaysInMonth, OnMonthDay, WeekdayOf, TruncDiv, DayOf;
    MonthDayIs(s, c);
    var i, months := StepTo(s, c), MonthIndex(c.y, c.mo) - MonthIndex(s.base.y, s.base.mo);
    DividesIsMultiple(months, s.rule.interval);
    var k := s.base.mo + i * s.rule.interval - 1;
    MonthsInRange(s, i);
    TruncNonNegative(k, 12);
    DivUnique(k, 12, c.y - s.base.y, c.mo - 1);
  }

  // A step of a yearly rule.
  lemma YearStep(s: Series, i: nat)
    requires ValidSeries(s) && s.rule.freq.Yearly? && CivilAt(s, i).Some?
    ensures var c := CivilAt(s, i).value;
            && SameClock(c, s.base) && StepTo(s, c) == i && Recurs(s, c)
            && VisitAt(s, i) == At(CivilToEpoch(s.zone, c), true)
  {
    hide DaysFromCivil, ValidZone, CivilToEpoch, DaysInMonth, DayOf;
    MultipleDivides(i, s.rule.interval);
    ProductNonNegative(i, s.rule.interval);
  }

  lemma YearStepTo(s: Series, c: Civil)
    requires ValidSeries(s) && s.rule.freq.Yearly? && ValidCivil(c) && Recurs(s, c)
    ensures StepTo(s, c) >= 0 && CivilAt(s, StepTo(s, c)) == Some(c)
  {
    hide DaysFromCivil, ValidZone, CivilToEpoch, DaysInMonth, DayOf;
    DividesIsMultiple(c.y - s.base.y, s.rule.interval);
  }

  /** A step that is visited and due is a recurrence. */
  lemma VisitRecurs(s: Series, i: nat)
    requires ValidSeries(s) && VisitAt(s, i).At? && VisitAt(s, i).due
    ensures CivilAt(s, i).Some?
    ensures var c := CivilAt(s, i).value;
            Recurs(s, c) && StepTo(s, c) == i && VisitAt(s, i).start == CivilToEpoch(s.zone, c)
  {
    VisitIsThere(s, i);
    hide VisitAt, CivilAt, ValidSeries, Recurs, CivilToEpoch;
    if ByDays(s) {
      DayStep(s, i);
    } else if s.rule.freq.Monthly? {
      MonthStep(s, i);
      MonthStepRecurs(s, i);
    } else {
      YearStep(s, i);
    }
  }

  lemma VisitIsThere(s: Series, i: nat)
    requires ValidSeries(s)
    ensures VisitAt(s, i).At? ==> CivilAt(s, i).Some?
  {
    hide CivilAt, ValidZone, CivilToEpoch, Due, DtStart;
  }

  /** Every recurrence is visited, and due. */
  lemma RecurrenceVisited(s: Series, c: Civil)
    requires ValidSeries(s) && ValidCivil(c) && Recurs(s, c)
    ensures StepTo(s, c) >= 0 && VisitAt(s, StepTo(s, c)) == At(CivilToEpoch(s.zone, c), true)
  {
    if ByDays(s) {
      RecursForward(s, c);
      hide VisitAt, CivilAt, ValidSeries, Recurs, CivilToEpoch, StepTo;
      DayStepTo(s, c);
      DayStep(s, StepTo(s, c));
    } else if s.rule.freq.Monthly? {
      hide VisitAt, CivilAt, ValidSeries, Recurs, CivilToEpoch, StepTo;
      MonthStepTo(s, c);
      MonthStepRecurs(s, StepTo(s, c));
      MonthStep(s, StepTo(s, c));
    } else {
      hide VisitAt, CivilAt, ValidSeries, Recurs, CivilToEpoch, StepTo;
      YearStepTo(s, c);
      YearStep(s, StepTo(s, c));
    }
  }

  lemma RecursForward(s: Series, c: Civil)
    requires ValidSeries(s) && ByDays(s) && ValidCivil(c) && Recurs(s, c)
    ensures StepTo(s, c) >= 0 && SameClock(c, s.base)
  {
    hide DayOf, WeekdayOf, MondayWeek, CivilToEpoch, ValidZone, DaysInMonth;
  }

  // ----- The list of starts -----

  /** The instant is that of a recurrence not past UNTIL. */
  ghost predicate IsStart(s: Series, x: int)
    requires ValidSeries(s)
  {
    exists c :: IsStartOf(s, x, c)
  }

  predicate IsStartOf(s: Series, x: int, c: Civil)
    requires ValidSeries(s)
  {
    ValidCivil(c) && Recurs(s, c) && x == CivilToEpoch(s.zone, c) && (s.rule.until == 0 || x <= s.rule.until)
  }

  lemma {:induction false} MatchesContain(s: Series, lo: nat, hi: nat, i: nat)
    requires ValidSeries(s) && lo <= i < hi && Qualifies(s, i)
    ensures VisitAt(s, i).start in Matches(s, lo, hi)
    decreases hi - lo
  {
    hide Qualifies, VisitAt, ValidSeries;
    if lo < i {
      MatchesContain(s, lo + 1, hi, i);
    }
  }

  /** The listed starts are the recurrences, as far as the list goes. */
  lemma MatchesAreRecurrences(s: Series, horizon: nat, x: int)
    requires ValidSeries(s)
    ensures x in Matches(s, 0, horizon) <==> exists c :: IsStartOf(s, x, c) && StepTo(s, c) < horizon
  {
    if x in Matches(s, 0, horizon) {
      hide VisitAt, ValidSeries, Recurs, CivilToEpoch, StepTo, Matches;
      var k :| 0 <= k < |Matches(s, 0, horizon)| && Matches(s, 0, horizon)[k] == x;
      var i := MatchesQualify(s, 0, horizon, k);
      VisitRecurs(s, i);
      assert IsStartOf(s, x, CivilAt(s, i).value);
    } else if c :| IsStartOf(s, x, c) && StepTo(s, c) < horizon {
      hide VisitAt, ValidSeries, Recurs, CivilToEpoch, StepTo, Matches;
      RecurrenceVisited(s, c);
      MatchesContain(s, 0, horizon, StepTo(s, c));
    }
  }

  // ----- What the parser emits -----

  lemma {:induction false} WantedContains(t: Template, starts: seq<int>, x: int)
    ensures x in WantedStarts(t, starts) <==> x in starts && Wanted(t, x)
  {
    hide Wanted;
    if starts != [] {
      WantedContains(t, starts[1..], x);
    }
  }

  // Room in the output list plays no part in what is wanted.
  lemma {:induction false} RoomIsIrrelevant(t: Template, n: nat, starts: seq<int>)
    ensures WantedStarts(t.(w := t.w.(maxEvents := n)), starts) == WantedStarts(t, starts)
  {
    if starts != [] {
      RoomIsIrrelevant(t, n, starts[1..]);
    }
  }

  // With room for all of them, what is emitted tells which starts were wanted.
  lemma EmissionTells(t: Template, a: seq<int>, b: seq<int>)
    requires t.w.maxEvents >= |WantedStarts(t, a)| && t.w.maxEvents >= |WantedStarts(t, b)|
    requires EmitAll(t, Sink([], false), a) == EmitAll(t, Sink([], false), b)
    ensures WantedStarts(t, a) == WantedStarts(t, b)
  {
    hide WantedStarts, EmitAll, MakeEvent;
    var sink := Sink([], false);
    EmitAllAppends(t, sink, a);
    EmitAllAppends(t, sink, b);
    var u, v := WantedStarts(t, a), WantedStarts(t, b);
    assert u[..Fitting(t, sink, |u|)] == u && v[..Fitting(t, sink, |v|)] == v;
    assert EmitAll(t, sink, a).out == Events(t, u) && EmitAll(t, sink, b).out == Events(t, v);
    EventsTell(t, u, v);
  }

  lemma EventsTell(t: Template, u: seq<int>, v: seq<int>)
    requires Events(t, u) == Events(t, v)
    ensures u == v
  {
    assert |u| == |Events(t, u)| == |v|;
    forall i | 0 <= i < |u| ensures u[i] == v[i] {
      assert Events(t, u)[i].start == u[i] && Events(t, v)[i].start == v[i];
    }
  }

  /** Where the loop's limits cannot be felt, the wanted starts are those of the plain list, in its order. */
  lemma WantedExactly(t: Template, s: Series, horizon: nat)
    requires ValidSeries(s) && TolerableJump(s) && WithinCap(s, t.w)
    requires horizon >= ScanEnd(s, t.w) && ShortEnough(s, t.w, t.duration)
    ensures WantedStarts(t, LoopStarts(s, t.w)) == WantedStarts(t, Limited(Matches(s, 0, horizon), s.rule.count))
  {
    var a, b := LoopStarts(s, t.w), Limited(Matches(s, 0, horizon), s.rule.count);
    var n := |WantedStarts(t, a)| + |WantedStarts(t, b)|;
    var roomy := t.(w := t.w.(maxEvents := n));
    SameLoop(s, t.w, roomy.w);
    RoomIsIrrelevant(t, n, a);
    RoomIsIrrelevant(t, n, b);
    hide ValidSeries, TolerableJump, WithinCap, LoopStarts, Matches, ScanEnd, FastForward, WantedStarts, EmitAll;
    ExpansionComplete(roomy, Sink([], false), s, horizon);
    EmissionTells(roomy, a, b);
  }

  /**
   * A rule without COUNT, where the loop's limits cannot be felt: an instant is emitted if and only
   * if it is a recurrence of the rule, not past UNTIL, not an EXDATE and in the window.
   */
  lemma EmittedAreRecurrences(t: Template, s: Series, x: int)
    requires ValidSeries(s) && TolerableJump(s) && WithinCap(s, t.w) && ShortEnough(s, t.w, t.duration)
    requires s.rule.count < 0
    ensures x in WantedStarts(t, LoopStarts(s, t.w)) <==> IsStart(s, x) && Wanted(t, x)
  {
    hide ValidSeries, TolerableJump, WithinCap, ShortEnough, LoopStarts, Matches, ScanEnd, WantedStarts, Wanted, IsStartOf, StepTo;
    var horizon := ScanEnd(s, t.w);
    if c :| IsStartOf(s, x, c) {
      StartIsValid(s, x, c);
      if StepTo(s, c) >= horizon {
        horizon := StepTo(s, c) + 1;
      }
    }
    WantedExactly(t, s, horizon);
    WantedContains(t, Matches(s, 0, horizon), x);
    MatchesAreRecurrences(s, horizon, x);
  }

  lemma StartIsValid(s: Series, x: int, c: Civil)
    requires ValidSeries(s) && IsStartOf(s, x, c)
    ensures ValidCivil(c)
  {
  }

  /** COUNT keeps the starts that fewer than COUNT others come before. */
  lemma CountKeepsEarliest(starts: seq<int>, count: nat, x: int)
    requires Increasing(starts)
    ensures x in Limited(starts, count) <==> x in starts && |set y | y in starts && y < x| < count
  {
    if k :| 0 <= k < |starts| && starts[k] == x {
      assert (set y | y in starts && y < x) == set y | y in starts[..k] by {
        forall y | y in starts && y < x ensures y in starts[..k] {
          var j :| 0 <= j < |starts| && starts[j] == y;
          assert starts[..k][j] == y;
        }
      }
      ManyElements(starts[..k]);
      if k < count {
        assert x in Limited(starts, count) by {
          if count <= |starts| {
            assert starts[..count][k] == x;
          }
        }
      }
    }
  }

  lemma {:induction false} ManyElements(s: seq<int>)
    requires Increasing(s)
    ensures |set y | y in s| == |s|
  {
    if s != [] {
      var front, last := s[..|s| - 1], s[|s| - 1];
      ManyElements(front);
      assert s == front + [last];
      assert last !in front;
      SetOfMore(front, last);
    }
  }

  lemma SetOfMore(front: seq<int>, last: int)
    ensures (set y | y in front + [last]) == (set y | y in front) + {last}
  {
  }
}
