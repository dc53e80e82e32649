/**
 * What the events in the output list say, in terms of the VEVENT they come from: when they start and
 * end, what they are called, and which of them may be there at all.
 */
module FeedLaws {
  import opened CivilDate
  import opened Zones
  import opened CalendarEvents
  import opened Recurrence
  import opened RecurrenceSet
  import opened Overrides
  import opened IcsParsing
  import opened Feed

  // ----- One event -----

  /** DTEND when it is later than DTSTART, else DURATION when there is no DTEND and it is positive, else an hour. */
  predicate Lasts(ev: VEvent, length: int)
    requires ValidEvent(ev)
  {
    var start := CivilToEpoch(ev.zone, ev.base);
    && (ev.dtEnd.Some? && ev.dtEnd.value > start ==> start + length == ev.dtEnd.value)
    && (ev.dtEnd.Some? && ev.dtEnd.value <= start ==> length == 3600)
    && (ev.dtEnd.None? && ev.duration.Some? && ev.duration.value > 0 ==> length == ev.duration.value)
    && (ev.dtEnd.None? && (ev.duration.None? || ev.duration.value <= 0) ==> length == 3600)
  }

  /** The event carries the VEVENT's properties and is as long as it says. */
  predicate Describes(w: Window, ev: VEvent, e: Event)
    requires ValidEvent(ev)
  {
    && (if ev.raw.uid == "" then e.uid == ev.raw.summary + "@" + Decimal(CivilToEpoch(ev.zone, ev.base)) else e.uid == ev.raw.uid)
    && (if ev.raw.summary == "" then e.title == "(untitled)" else e.title == ev.raw.summary)
    && e.status == ev.raw.status && e.calIndex == w.calIndex && !e.allDay
    && Lasts(ev, e.end - e.start)
  }

  /** The start is excluded by no EXDATE, and the event shares an instant with the window. */
  predicate Shown(w: Window, ev: VEvent, start: int, end: int) {
    start !in ev.raw.exdates && end > w.start && start < w.end
  }

  lemma DurationLasts(ev: VEvent, length: int)
    requires ValidEvent(ev)
    ensures Lasts(ev, length) <==> length == EventDuration(ev)
  {
    hide CivilToEpoch, ValidZone, ValidCivil;
  }

  lemma MadeEvent(w: Window, ev: VEvent, start: int)
    requires ValidEvent(ev)
    ensures var e := MakeEvent(EventTemplate(ev, w), start);
            && Describes(w, ev, e) && e.start == start && !e.isOverride && e.recurrenceId == 0
            && (Wanted(EventTemplate(ev, w), start) <==> Shown(w, ev, e.start, e.end))
  {
    hide CivilToEpoch, ValidZone, ValidCivil, Lasts, EventDuration, Decimal;
    DurationLasts(ev, EventDuration(ev));
  }

  /** A base occurrence of the VEVENT: shown, and at DTSTART or at a recurrence of the rule. */
  ghost predicate IsBaseOf(w: Window, ev: VEvent, e: Event)
    requires ValidEvent(ev)
  {
    && Describes(w, ev, e) && !e.isOverride && Shown(w, ev, e.start, e.end) && !ev.raw.status.Cancelled?
    && if ev.rrule.Parsed? then IsStart(Series(ev.rrule.rule, ev.zone, ev.base), e.start)
       else e.start == CivilToEpoch(ev.zone, ev.base)
  }

  /** The instance that a VEVENT with a RECURRENCE-ID puts in place of another. */
  predicate IsOverrideOf(w: Window, ev: VEvent, e: Event)
    requires ValidEvent(ev)
  {
    && Describes(w, ev, e) && e.isOverride && ev.recurrenceId.Some? && e.recurrenceId == ev.recurrenceId.value
    && e.start == CivilToEpoch(ev.zone, ev.base)
  }

  lemma LoopStartsRecur(s: Series, w: Window, x: int)
    requires ValidSeries(s) && x in LoopStarts(s, w)
    ensures IsStart(s, x)
  {
    hide ValidSeries, Matches, Scan, IsStartOf, StepTo, FastForward, ScanEnd;
    var lo, hi := FastForward(s, w), ScanEnd(s, w);
    LoopBounds(s, w);
    ScanIsPrefix(s, lo, hi, s.rule.count, w.end + 2 * DAY);
    MatchesConcat(s, 0, lo, hi);
    assert x in Matches(s, lo, hi);
    assert x in Matches(s, 0, hi);
    MatchesAreRecurrences(s, hi, x);
  }

  // What emitting adds: one event for each wanted start, as long as there is room.
  lemma EmittedEvents(w: Window, sink: Sink, ev: VEvent, starts: seq<int>)
    requires ValidEvent(ev)
    ensures var t := EventTemplate(ev, w);
            var all := EmitAll(t, sink, starts);
            && sink.out <= all.out
            && (forall i :: |sink.out| <= i < |all.out| ==>
                  all.out[i].start in starts && all.out[i] == MakeEvent(t, all.out[i].start) && Wanted(t, all.out[i].start))
            && (!all.truncated ==> forall x :: x in starts && Wanted(t, x) ==>
                  exists i :: |sink.out| <= i < |all.out| && all.out[i].start == x)
  {
    hide EventTemplate, Wanted, EmitAll, WantedStarts;
    var t := EventTemplate(ev, w);
    EmitAllAppends(t, sink, starts);
    var ws, all := WantedStarts(t, starts), EmitAll(t, sink, starts);
    var k := Fitting(t, sink, |ws|);
    forall i | |sink.out| <= i < |all.out|
      ensures all.out[i].start in starts && all.out[i] == MakeEvent(t, all.out[i].start) && Wanted(t, all.out[i].start)
    {
      var x := ws[i - |sink.out|];
      assert all.out[i] == Events(t, ws[..k])[i - |sink.out|] == MakeEvent(t, x);
      WantedContains(t, starts, x);
    }
    if !all.truncated {
      assert ws[..k] == ws;
      forall x | x in starts && Wanted(t, x) ensures exists i :: |sink.out| <= i < |all.out| && all.out[i].start == x {
        WantedContains(t, starts, x);
        var j :| 0 <= j < |ws| && ws[j] == x;
        assert all.out[|sink.out| + j] == Events(t, ws)[j] == MakeEvent(t, x);
      }
    }
  }

  /** A VEVENT that is not an override adds base occurrences, and only base occurrences of its own. */
  lemma BaseEventsAdded(w: Window, p: ParserState, ev: VEvent)
    requires ValidEvent(ev) && ev.recurrenceId.None?
    ensures var out' := EndEventResult(w, p, ev).sink.out;
            && p.sink.out <= out' && EndEventResult(w, p, ev).overrides == p.overrides
            && forall i :: |p.sink.out| <= i < |out'| ==> IsBaseOf(w, ev, out'[i])
  {
    hide EmitAll, LoopStarts, EventTemplate, CivilToEpoch, ValidZone, ValidCivil, MakeEvent, Wanted, Describes, Shown, IsStart;
    var p' := EndEventResult(w, p, ev);
    if EventStart(ev) != 0 && !ev.raw.status.Cancelled? {
      var starts := if ev.rrule.Parsed? then LoopStarts(EventSeries(ev), w) else [EventStart(ev)];
      EmittedEvents(w, p.sink, ev, starts);
      forall i | |p.sink.out| <= i < |p'.sink.out| ensures IsBaseOf(w, ev, p'.sink.out[i]) {
        var x := p'.sink.out[i].start;
        MadeEvent(w, ev, x);
        if ev.rrule.Parsed? {
          LoopStartsRecur(EventSeries(ev), w, x);
        }
      }
    }
  }

  /**
   * A single event is added once, at DTSTART and for as long as it says, if and only if it is shown,
   * not cancelled and there is room; a start of 0 seconds counts as none.
   */
  lemma SingleEvent(w: Window, p: ParserState, ev: VEvent, length: int)
    requires ValidEvent(ev) && ev.recurrenceId.None? && !ev.rrule.Parsed? && Lasts(ev, length)
    ensures var start := CivilToEpoch(ev.zone, ev.base);
            var p' := EndEventResult(w, p, ev);
            var wanted := start != 0 && !ev.raw.status.Cancelled? && Shown(w, ev, start, start + length);
            && (if wanted && |p.sink.out| < w.maxEvents
                then |p'.sink.out| == |p.sink.out| + 1 && p.sink.out <= p'.sink.out
                     && IsBaseOf(w, ev, p'.sink.out[|p.sink.out|]) && p'.sink.out[|p.sink.out|].end == start + length
                else p'.sink.out == p.sink.out)
            && (p'.sink.truncated <==> p.sink.truncated || (wanted && |p.sink.out| >= w.maxEvents))
  {
    hide CivilToEpoch, ValidZone, ValidCivil, Decimal, Describes, Shown, MakeEvent, Wanted, EventTemplate;
    var start := EventStart(ev);
    DurationLasts(ev, length);
    MadeEvent(w, ev, start);
    MadeLength(w, ev, start);
    assert [start][1..] == [];
    assert EmitAll(EventTemplate(ev, w), p.sink, [start]) == Emit(EventTemplate(ev, w), p.sink, start);
  }

  lemma MadeLength(w: Window, ev: VEvent, start: int)
    requires ValidEvent(ev)
    ensures MakeEvent(EventTemplate(ev, w), start).end == start + EventDuration(ev)
    ensures EventTemplate(ev, w).w == w && EventTemplate(ev, w).duration == EventDuration(ev)
  {
    hide EventDuration;
  }

  /**
   * A series without COUNT whose loop limits cannot be felt: unless the list is full, an occurrence at x
   * is added if and only if the rule recurs at x, not past UNTIL, and it is shown.
   */
  lemma SeriesEvents(w: Window, p: ParserState, ev: VEvent, length: int, horizon: nat, x: int)
    requires ValidEvent(ev) && ev.recurrenceId.None? && ev.rrule.Parsed? && Lasts(ev, length)
    requires CivilToEpoch(ev.zone, ev.base) != 0 && !ev.raw.status.Cancelled? && ev.rrule.rule.count < 0
    requires SeriesFits(w, Series(ev.rrule.rule, ev.zone, ev.base), length, horizon)
    requires !EndEventResult(w, p, ev).sink.truncated
    ensures var out' := EndEventResult(w, p, ev).sink.out;
            (exists i :: |p.sink.out| <= i < |out'| && out'[i].start == x) <==>
            IsStart(Series(ev.rrule.rule, ev.zone, ev.base), x) && Shown(w, ev, x, x + length)
  {
    hide EmitAll, LoopStarts, CivilToEpoch, ValidZone, ValidCivil, MakeEvent, Wanted, IsStart, TolerableJump, WithinCap, ShortEnough, ScanEnd;
    hide EventDuration, EventTemplate;
    var t, s := EventTemplate(ev, w), Series(ev.rrule.rule, ev.zone, ev.base);
    DurationLasts(ev, length);
    MadeLength(w, ev, x);
    MadeEvent(w, ev, x);
    EmittedEvents(w, p.sink, ev, LoopStarts(s, w));
    EmittedAreRecurrences(t, s, x);
    WantedContains(t, LoopStarts(s, w), x);
  }

  // ----- Overrides and the whole feed -----

  /** A VEVENT with a RECURRENCE-ID adds nothing to the list; it is kept for the end of the feed, or dropped. */
  lemma OverrideKept(w: Window, p: ParserState, ev: VEvent)
    requires ValidEvent(ev) && ev.recurrenceId.Some?
    ensures var p' := EndEventResult(w, p, ev);
            && p'.sink.out == p.sink.out
            && (p'.overrides == p.overrides
                || (|p'.overrides| == |p.overrides| + 1 && p.overrides <= p'.overrides
                    && IsOverrideOf(w, ev, p'.overrides[|p.overrides|])))
  {
    hide CivilToEpoch, ValidZone, ValidCivil, Describes, MakeEvent, Relevant, EventTemplate;
    var e := MakeEvent(EventTemplate(ev, w), EventStart(ev));
    MadeEvent(w, ev, EventStart(ev));
    DescribesStays(w, ev, e, ev.recurrenceId.value);
  }

  lemma DescribesStays(w: Window, ev: VEvent, e: Event, id: int)
    requires ValidEvent(ev) && Describes(w, ev, e)
    ensures Describes(w, ev, e.(isOverride := true, recurrenceId := id))
  {
    hide CivilToEpoch, ValidZone, ValidCivil, Lasts, Decimal;
  }

  ghost predicate ComesFrom(w: Window, evs: seq<VEvent>, e: Event)
    requires ValidEvents(evs)
  {
    exists k :: 0 <= k < |evs| && (IsBaseOf(w, evs[k], e) || IsOverrideOf(w, evs[k], e))
  }

  ghost predicate AllComeFrom(w: Window, evs: seq<VEvent>, out: seq<Event>, p: ParserState)
    requires ValidEvents(evs)
  {
    && (forall e :: e in p.sink.out ==> e in out || (!e.isOverride && ComesFrom(w, evs, e)))
    && (forall e :: e in p.overrides ==> e.isOverride && ComesFrom(w, evs, e))
  }

  lemma EventComesFrom(w: Window, evs: seq<VEvent>, out: seq<Event>, p: ParserState, k: nat)
    requires ValidEvents(evs) && k < |evs| && AllComeFrom(w, evs, out, p)
    ensures AllComeFrom(w, evs, out, EndEventResult(w, p, evs[k]))
  {
    var p' := EndEventResult(w, p, evs[k]);
    if evs[k].recurrenceId.Some? {
      OverrideKept(w, p, evs[k]);
      hide EndEventResult, ValidEvent, Describes;
    } else {
      BaseEventsAdded(w, p, evs[k]);
      hide EndEventResult, ValidEvent, Describes, Shown, IsStart;
      forall e | e in p'.sink.out ensures e in out || (!e.isOverride && ComesFrom(w, evs, e)) {
        var i :| 0 <= i < |p'.sink.out| && p'.sink.out[i] == e;
        if i < |p.sink.out| {
          assert e == p.sink.out[i];
        }
      }
    }
  }

  lemma {:induction false} EventsComeFrom(w: Window, evs: seq<VEvent>, out: seq<Event>, p: ParserState, k: nat)
    requires ValidEvents(evs) && k <= |evs| && AllComeFrom(w, evs, out, p)
    ensures AllComeFrom(w, evs, out, RunEvents(w, p, evs[k..]))
    decreases |evs| - k
  {
    hide EndEventResult, ValidEvent, AllComeFrom;
    if k < |evs| {
      EventComesFrom(w, evs, out, p, k);
      assert evs[k..][1..] == evs[k + 1..];
      EventsComeFrom(w, evs, out, EndEventResult(w, p, evs[k]), k + 1);
    }
  }

  lemma {:induction false} RemovedFrom(out: seq<Event>, ov: Event)
    ensures forall e :: e in RemoveFirst(out, ov) ==> e in out
  {
    hide Replaces;
    if out != [] {
      RemovedFrom(out[1..], ov);
    }
  }

  lemma {:induction false} AppliedFrom(w: Window, sink: Sink, ovs: seq<Event>)
    ensures forall e :: e in ApplyOverrides(w, sink, ovs).out ==>
              e in sink.out || (e in ovs && !e.status.Cancelled? && e.end > w.start && e.start < w.end)
    decreases |ovs|
  {
    hide RemoveFirst;
    if ovs != [] {
      RemovedFrom(sink.out, ovs[0]);
      AppliedFrom(w, ApplyOverride(w, sink, ovs[0]), ovs[1..]);
    }
  }

  lemma {:induction false} OverrideStays(out: seq<Event>, ov: Event, e: Event)
    requires e in out && e.isOverride
    ensures e in RemoveFirst(out, ov)
  {
    if !Replaces(ov, out[0]) && e != out[0] {
      OverrideStays(out[1..], ov, e);
    }
  }

  lemma {:induction false} AppliedKeeps(w: Window, sink: Sink, ovs: seq<Event>, e: Event)
    requires e in sink.out && e.isOverride
    ensures e in ApplyOverrides(w, sink, ovs).out
    decreases |ovs|
  {
    hide RemoveFirst;
    if ovs != [] {
      OverrideStays(sink.out, ovs[0], e);
      AppliedKeeps(w, ApplyOverride(w, sink, ovs[0]), ovs[1..], e);
    }
  }

  lemma {:induction false} TruncatedStays(w: Window, sink: Sink, ovs: seq<Event>)
    ensures sink.truncated ==> ApplyOverrides(w, sink, ovs).truncated
    decreases |ovs|
  {
    hide RemoveFirst, Live;
    if ovs != [] {
      TruncatedStays(w, ApplyOverride(w, sink, ovs[0]), ovs[1..]);
    }
  }

  /** Unless something did not fit, every override that is not cancelled and overlaps the window ends up in the list. */
  lemma {:induction false} LiveOverrideAppears(w: Window, sink: Sink, ovs: seq<Event>, ov: Event)
    requires ov in ovs && ov.isOverride && !ov.status.Cancelled? && ov.end > w.start && ov.start < w.end
    requires !ApplyOverrides(w, sink, ovs).truncated
    ensures ov in ApplyOverrides(w, sink, ovs).out
    decreases |ovs|
  {
    hide RemoveFirst;
    var next := ApplyOverride(w, sink, ovs[0]);
    if ov == ovs[0] {
      TruncatedStays(w, next, ovs[1..]);
      assert ov in next.out;
      AppliedKeeps(w, next, ovs[1..], ov);
    } else {
      LiveOverrideAppears(w, next, ovs[1..], ov);
    }
  }

  /**
   * Every event that a feed leaves in the list was there before or comes from one of its VEVENTs: a base
   * occurrence that is shown, or an override. Either way it overlaps the window and is not cancelled.
   */
  lemma EveryEventComesFrom(w: Window, out: seq<Event>, evs: seq<VEvent>, e: Event)
    requires ValidEvents(evs) && e in RunFeed(w, out, evs).out
    ensures e in out || (ComesFrom(w, evs, e) && !e.status.Cancelled? && e.end > w.start && e.start < w.end)
  {
    var p := ParserState(Sink(out, false), []);
    assert AllComeFrom(w, evs, out, p);
    EventsComeFrom(w, evs, out, p, 0);
    assert evs[0..] == evs;
    hide RunEvents, ValidEvent, IsOverrideOf, IsStart;
    AppliedFrom(w, RunEvents(w, p, evs).sink, RunEvents(w, p, evs).overrides);
  }
}
