/**
 * The event side of the calendar parser: expanding one VEVENT into the output list
 * and reconciling the overrides at the end of a feed.
 */
module IcsParsing {
  import opened Options
  import opened CArith
  import opened CivilDate
  import opened Weekdays
  import opened Zones
  import opened CalendarEvents
  import opened Recurrence
  import opened Overrides

  const MAX_OVERRIDES: nat := 200

  /** The RRULE property: absent, of an unsupported FREQ, or parsed. */
  datatype RruleText = NoRule | Unsupported | Parsed(rule: Rule)

  /** A VEVENT with its properties parsed; times are seconds since the epoch. */
  datatype VEvent = VEvent(
    raw: RawEvent, zone: Zone, base: Civil, dtEnd: Option<int>, duration: Option<int>,
    recurrenceId: Option<int>, rrule: RruleText)

  predicate ValidEvent(ev: VEvent) {
    && ValidZone(ev.zone) && ValidCivil(ev.base)
    && (ev.rrule.Parsed? ==> ValidSeries(Series(ev.rrule.rule, ev.zone, ev.base)))
  }

  function EventStart(ev: VEvent): int
    requires ValidEvent(ev)
  {
    CivilToEpoch(ev.zone, ev.base)
  }

  /** DTEND if it is later, else DURATION if positive, else an hour. */
  function EventDuration(ev: VEvent): (d: int)
    requires ValidEvent(ev)
    ensures d > 0
  {
    if ev.dtEnd.Some? then
      if ev.dtEnd.value > EventStart(ev) then ev.dtEnd.value - EventStart(ev) else 3600
    else if ev.duration.Some? && ev.duration.value > 0 then ev.duration.value
    else 3600
  }

  /** A number as the parser writes it into a missing UID. */
  function Decimal(n: int): string
    decreases if n < 0 then 1 else 0, n
  {
    if n < 0 then "-" + Decimal(-n)
    else if n < 10 then ["0123456789"[n]]
    else Decimal(n / 10) + ["0123456789"[n % 10]]
  }

  /** The number that decimal digits stand for. */
  function DigitsValue(digits: string): int {
    if digits == "" then 0 else 10 * DigitsValue(digits[..|digits| - 1]) + (digits[|digits| - 1] as int - '0' as int)
  }

  /** The written number reads back, with a sign in front of negative ones. */
  lemma DecimalReads(n: int)
    ensures n >= 0 ==> DigitsValue(Decimal(n)) == n
    ensures n < 0 ==> Decimal(n) == "-" + Decimal(-n)
  {
    if n >= 0 {
      DigitsRead(n);
    }
  }

  lemma {:induction false} DigitsRead(n: nat)
    ensures DigitsValue(Decimal(n)) == n
  {
    if n < 10 {
      assert DigitsValue("") == 0;
      var d := "0123456789"[n];
      assert [d][..0] == "";
      assert d as int == '0' as int + n;
    } else {
      DigitsRead(n / 10);
      var d := "0123456789"[n % 10];
      assert d as int == '0' as int + n % 10;
      assert (Decimal(n / 10) + [d])[..|Decimal(n / 10)|] == Decimal(n / 10);
    }
  }

  /** The event's properties; a missing UID is made of the summary and the start. */
  function Named(ev: VEvent): RawEvent
    requires ValidEvent(ev)
  {
    if ev.raw.uid == "" then ev.raw.(uid := ev.raw.summary + "@" + Decimal(EventStart(ev))) else ev.raw
  }

  function EventTemplate(ev: VEvent, w: Window): Template
    requires ValidEvent(ev)
  {
    Template(w, Named(ev), EventDuration(ev), false)
  }

  function EventSeries(ev: VEvent): Series
    requires ValidEvent(ev) && ev.rrule.Parsed?
  {
    Series(ev.rrule.rule, ev.zone, ev.base)
  }

  function OverrideOf(ev: VEvent, w: Window): Event
    requires ValidEvent(ev) && ev.recurrenceId.Some?
  {
    MakeEvent(EventTemplate(ev, w), EventStart(ev)).(isOverride := true, recurrenceId := ev.recurrenceId.value)
  }

  /** What the parser holds between VEVENTs. */
  datatype ParserState = ParserState(sink: Sink, overrides: seq<Event>)

  /** One VEVENT, as endEvent treats it. */
  function EndEventResult(w: Window, p: ParserState, ev: VEvent): ParserState
    requires ValidEvent(ev)
  {
    if EventStart(ev) == 0 then p
    else if ev.recurrenceId.Some? then
      var ov := OverrideOf(ev, w);
      if ev.recurrenceId.value == 0 || !Relevant(w, ov) then p
      else if |p.overrides| >= MAX_OVERRIDES then p.(sink := p.sink.(truncated := true))
      else p.(overrides := p.overrides + [ov])
    else if ev.raw.status.Cancelled? then p
    else
      var starts := if ev.rrule.Parsed? then LoopStarts(EventSeries(ev), w) else [EventStart(ev)];
      p.(sink := EmitAll(EventTemplate(ev, w), p.sink, starts))
  }

  lemma DayLoopStarts(s: Series, w: Window)
    requires ValidSeries(s) && ByDays(s)
    ensures var n := FastForward(s, w);
            LoopStarts(s, w) == Scan(s, n, n + MAX_DAY_ITERATIONS, s.rule.count, w.end + 2 * DAY)
  {
    hide FastForward, Scan;
  }

  class IcsParser {
    const w: Window
    var out: seq<Event>
    var truncated: bool
    var overrides: seq<Event>

    /** The output list is shared: it may hold the events of earlier feeds. */
    constructor (w: Window, out: seq<Event>)
      ensures this.w == w && State() == ParserState(Sink(out, false), [])
    {
      this.w := w;
      this.out := out;
      truncated := false;
      overrides := [];
    }

    function Emitted(): Sink
      reads this
    {
      Sink(out, truncated)
    }

    function State(): ParserState
      reads this
    {
      ParserState(Emitted(), overrides)
    }

    method EmitOccurrence(raw: RawEvent, start: int, duration: int, allDay: bool)
      modifies this`out, this`truncated
      ensures Emitted() == Emit(Template(w, raw, duration, allDay), old(Emitted()), start)
    {
      for i := 0 to |raw.exdates|
        invariant start !in raw.exdates[..i]
        invariant Emitted() == old(Emitted())
      {
        if raw.exdates[i] == start {
          return;
        }
      }
      assert raw.exdates[..|raw.exdates|] == raw.exdates;
      var end := start + duration;
      if !(end > w.start && start < w.end) {
        return;
      }
      if |out| >= w.maxEvents {
        truncated := true;
        return;
      }
      out := out + [Event(raw.uid, if raw.summary == "" then "(untitled)" else raw.summary,
                          start, end, allDay, raw.status, w.calIndex, false, 0)];
    }

    /** Emits one start unless COUNT is used up or UNTIL has passed; says whether it did. */
    method EmitIfDue(t: Template, rule: Rule, occ: int, remaining: int) returns (more: bool, left: int)
      requires t.w == w
      modifies this`out, this`truncated
      ensures more <==> remaining != 0 && (rule.until == 0 || occ <= rule.until)
      ensures Emitted() == if more then Emit(t, old(Emitted()), occ) else old(Emitted())
      ensures left == if more && remaining > 0 then remaining - 1 else remaining
    {
      hide Emit;
      if remaining == 0 {
        return false, remaining;
      }
      if rule.until != 0 && occ > rule.until {
        return false, remaining;
      }
      EmitOccurrence(t.raw, occ, t.duration, t.allDay);
      more, left := true, if remaining > 0 then remaining - 1 else remaining;
    }

    /** Jumps towards the window when no COUNT has to be kept. */
    method FirstStep(s: Series) returns (n: nat)
      requires ValidSeries(s) && ByDays(s)
      ensures n == FastForward(s, w)
    {
      assert s.rule.interval >= 1;
      hide ValidSeries, DtStart;
      n := 0;
      if s.rule.count < 0 && w.start > DtStart(s) {
        var daysAhead := (w.start - DtStart(s)) / DAY - 2;
        if daysAhead > 0 {
          var step := if s.rule.freq.Daily? then s.rule.interval else 7 * s.rule.interval;
          LastMultipleIs(daysAhead, step);
          n := (daysAhead / step) * step;
        }
      }
    }

    /** The day loop of DAILY and WEEKLY rules. */
    method ExpandByDays(t: Template, s: Series)
      requires ValidSeries(s) && ByDays(s) && t.w == w
      modifies this`out, this`truncated
      ensures Emitted() == EmitAll(t, old(Emitted()), LoopStarts(s, w))
    {
      hide VisitAt, ValidZone, ValidCivil, Emit, Due, DtStart, OccurrenceAt, CivilToEpoch, EmitAll, LoopStarts, ScanEnd, Scan;
      hide FastForward, Step, Day0, DAY;
      var rule := s.rule;
      var day0 := Day0(s);
      var n := FirstStep(s);
      ghost var cap := n + MAX_DAY_ITERATIONS;
      DayLoopStarts(s, w);
      var horizon := w.end + 2 * DAY;
      var remaining := rule.count;
      var iter := 0;
      while iter < MAX_DAY_ITERATIONS
        invariant 0 <= iter <= MAX_DAY_ITERATIONS && 0 <= n && n - iter == cap - MAX_DAY_ITERATIONS
        invariant EmitAll(t, Emitted(), Scan(s, n, cap, remaining, horizon))
               == EmitAll(t, old(Emitted()), LoopStarts(s, w))
      {
        ScanStep(t, Emitted(), s, n, cap, remaining, horizon);
        DayVisit(s, n);
        var occ := OccurrenceAt(s.zone, s.base, day0 + n);
        if occ > horizon {
          return;
        }
        if rule.until != 0 && occ > rule.until {
          return;
        }
        var due := Due(s, n);
        if due {
          var more;
          more, remaining := EmitIfDue(t, rule, occ, remaining);
          if !more {
            return;
          }
        }
        if remaining == 0 {
          NothingLeft(t, Emitted(), s, n + 1, cap, remaining, horizon);
          return;
        }
        iter, n := iter + 1, n + 1;
      }
      NothingLeft(t, Emitted(), s, n, cap, remaining, horizon);
    }

    /** The month loop: an ordinal weekday, a day of the month, or DTSTART's own day. */
    method ExpandByMonths(t: Template, s: Series)
      requires ValidSeries(s) && s.rule.freq.Monthly? && t.w == w
      modifies this`out, this`truncated
      ensures Emitted() == EmitAll(t, old(Emitted()), LoopStarts(s, w))
    {
      hide VisitAt, ValidZone, Emit, DtStart, CivilToEpoch, EmitAll, Scan, MonthlyDay, DaysInMonth, TruncDiv, TruncMod;
      var rule := s.rule;
      var target := -1;
      for wd := 0 to 7
        invariant target == TargetWeekday(rule.byday, wd - 1)
      {
        if wd in rule.byday {
          target := wd;
        }
      }
      hide TargetWeekday;
      ghost var cap := (MAX_MONTH_ITERATIONS - 1) / rule.interval + 1;
      assert LoopStarts(s, w) == Scan(s, 0, cap, rule.count, w.end + 2 * DAY);
      hide LoopStarts;
      var horizon := w.end + 2 * DAY;
      var remaining := rule.count;
      ghost var i: nat := 0;
      var m := 0;
      StepsBelow(MAX_MONTH_ITERATIONS, rule.interval, 0);
      while m < MAX_MONTH_ITERATIONS
        invariant m == i * rule.interval
        invariant EmitAll(t, Emitted(), Scan(s, i, cap, remaining, horizon))
               == EmitAll(t, old(Emitted()), LoopStarts(s, w))
        decreases MAX_MONTH_ITERATIONS - m
      {
        StepsBelow(MAX_MONTH_ITERATIONS, rule.interval, i);
        ScanStep(t, Emitted(), s, i, cap, remaining, horizon);
        MonthVisit(s, i);
        var year := s.base.y + TruncDiv(s.base.mo + m - 1, 12);
        var month := TruncMod(s.base.mo + m - 1, 12) + 1;
        var dim := DaysInMonth(year, month);
        var day := s.base.d;
        if target >= 0 {
          day := MonthlyDay(year, month, target, rule.bydayOrd);
        } else if rule.bymonthday != 0 {
          day := if rule.bymonthday > 0 then rule.bymonthday else dim + 1 + rule.bymonthday;
        }
        assert day == DayInMonth(s, year, month);
        assert (i + 1) * rule.interval == m + rule.interval;
        i, m := i + 1, m + rule.interval;
        if day < 1 || day > dim {
          continue;
        }
        var occ := CivilToEpoch(s.zone, s.base.(y := year, mo := month, d := day));
        if occ < DtStart(s) {
          continue;
        }
        if occ > horizon {
          return;
        }
        if rule.until != 0 && occ > rule.until {
          return;
        }
        var more;
        more, remaining := EmitIfDue(t, rule, occ, remaining);
        if !more {
          return;
        }
        if remaining == 0 {
          NothingLeft(t, Emitted(), s, i, cap, remaining, horizon);
          return;
        }
      }
      StepsBelow(MAX_MONTH_ITERATIONS, rule.interval, i);
      NothingLeft(t, Emitted(), s, i, cap, remaining, horizon);
    }

    /** The year loop: the same month and day, where it exists. */
    method ExpandByYears(t: Template, s: Series)
      requires ValidSeries(s) && s.rule.freq.Yearly? && t.w == w
      modifies this`out, this`truncated
      ensures Emitted() == EmitAll(t, old(Emitted()), LoopStarts(s, w))
    {
      hide VisitAt, ValidZone, Emit, DtStart, CivilToEpoch, EmitAll, Scan, DaysInMonth;
      var rule := s.rule;
      ghost var cap := (MAX_YEAR_ITERATIONS - 1) / rule.interval + 1;
      assert LoopStarts(s, w) == Scan(s, 0, cap, rule.count, w.end + 2 * DAY);
      hide LoopStarts;
      var horizon := w.end + 2 * DAY;
      var remaining := rule.count;
      ghost var i: nat := 0;
      var yOff := 0;
      while yOff < MAX_YEAR_ITERATIONS
        invariant yOff == i * rule.interval
        invariant EmitAll(t, Emitted(), Scan(s, i, cap, remaining, horizon))
               == EmitAll(t, old(Emitted()), LoopStarts(s, w))
        decreases MAX_YEAR_ITERATIONS - yOff
      {
        StepsBelow(MAX_YEAR_ITERATIONS, rule.interval, i);
        ScanStep(t, Emitted(), s, i, cap, remaining, horizon);
        YearVisit(s, i);
        var year := s.base.y + yOff;
        assert (i + 1) * rule.interval == yOff + rule.interval;
        i, yOff := i + 1, yOff + rule.interval;
        if s.base.d > DaysInMonth(year, s.base.mo) {
          continue;
        }
        var occ := CivilToEpoch(s.zone, s.base.(y := year));
        if occ > horizon {
          return;
        }
        if rule.until != 0 && occ > rule.until {
          return;
        }
        var more;
        more, remaining := EmitIfDue(t, rule, occ, remaining);
        if !more {
          return;
        }
        if remaining == 0 {
          NothingLeft(t, Emitted(), s, i, cap, remaining, horizon);
          return;
        }
      }
      StepsBelow(MAX_YEAR_ITERATIONS, rule.interval, i);
      NothingLeft(t, Emitted(), s, i, cap, remaining, horizon);
    }

    /** Emits every occurrence of a recurring event that the window wants. */
    method ExpandRecurrence(t: Template, s: Series)
      requires ValidSeries(s) && t.w == w
      modifies this`out, this`truncated
      ensures Emitted() == EmitAll(t, old(Emitted()), LoopStarts(s, w))
    {
      hide LoopStarts, EmitAll, ValidSeries;
      if s.rule.freq.Daily? || s.rule.freq.Weekly? {
        ExpandByDays(t, s);
      } else if s.rule.freq.Monthly? {
        ExpandByMonths(t, s);
      } else {
        ExpandByYears(t, s);
      }
    }

    /** The end of a VEVENT: an override to keep, a single event, or a series. */
    method EndEvent(ev: VEvent)
      requires ValidEvent(ev)
      modifies this
      ensures State() == EndEventResult(w, old(State()), ev)
    {
      hide ValidZone, ValidCivil, CivilToEpoch, LoopStarts, Emit, Decimal;
      var dtStart := EventStart(ev);
      if dtStart == 0 {
        return;
      }
      var duration := EventDuration(ev);
      var raw := ev.raw;
      if raw.uid == "" {
        raw := raw.(uid := raw.summary + "@" + Decimal(dtStart));
      }
      var t := Template(w, raw, duration, false);
      assert t == EventTemplate(ev, w);
      if ev.recurrenceId.Some? {
        var recId := ev.recurrenceId.value;
        if recId == 0 {
          return;
        }
        var ovEnd := dtStart + duration;
        var selfRelevant := ovEnd > w.start && dtStart < w.end;
        var baseRelevant := recId > w.start - DAY && recId < w.end + DAY;
        if !selfRelevant && !baseRelevant {
          return;
        }
        if |overrides| >= MAX_OVERRIDES {
          truncated := true;
          return;
        }
        overrides := overrides + [OverrideOf(ev, w)];
        return;
      }
      if ev.raw.status.Cancelled? {
        return;
      }
      if !ev.rrule.Parsed? {
        EmitOccurrence(raw, dtStart, duration, false);
        assert [dtStart][1..] == [];
        assert EmitAll(t, old(Emitted()), [dtStart]) == Emit(t, old(Emitted()), dtStart);
        return;
      }
      ExpandRecurrence(t, EventSeries(ev));
    }

    /** The end of the feed: every override kept replaces its base occurrence. */
    method Finish()
      modifies this
      ensures State() == ParserState(ApplyOverrides(w, old(Emitted()), old(overrides)), [])
    {
      for k := 0 to |overrides|
        invariant overrides == old(overrides)
        invariant ApplyOverrides(w, Emitted(), overrides[k..]) == ApplyOverrides(w, old(Emitted()), overrides)
      {
        var ov := overrides[k];
        ghost var before := Emitted();
        assert overrides[k..][0] == ov && overrides[k..][1..] == overrides[k + 1..];
        EraseBase(ov);
        if !ov.status.Cancelled? && ov.end > w.start && ov.start < w.end {
          if |out| < w.maxEvents {
            out := out + [ov];
          } else {
            truncated := true;
          }
        }
        assert Emitted() == ApplyOverride(w, before, ov);
      }
      assert overrides[|overrides|..] == [];
      overrides := [];
    }

    /** Erases the first base occurrence the override replaces, if there is one. */
    method EraseBase(ov: Event)
      modifies this`out
      ensures out == RemoveFirst(old(out), ov)
    {
      for i := 0 to |out|
        invariant out == old(out)
        invariant forall k :: 0 <= k < i ==> !Replaces(ov, out[k])
      {
        if !out[i].isOverride && out[i].uid == ov.uid && out[i].start == ov.recurrenceId {
          RemoveFirstAt(out, ov, i);
          out := out[..i] + out[i + 1..];
          return;
        }
      }
      RemoveFirstAt(out, ov, |out|);
    }
  }
}
