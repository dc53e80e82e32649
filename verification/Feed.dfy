/**
 * A whole calendar feed: the bounded, pruning parser against a plain reading that
 * lists every due start from DTSTART on and keeps every override.
 */
module Feed {
  import opened Zones
  import opened CalendarEvents
  import opened Recurrence
  import opened Overrides
  import opened IcsParsing

  predicate ValidEvents(evs: seq<VEvent>) {
    forall i :: 0 <= i < |evs| ==> ValidEvent(evs[i])
  }

  function RunEvents(w: Window, p: ParserState, evs: seq<VEvent>): ParserState
    requires ValidEvents(evs)
    decreases |evs|
  {
    if evs == [] then p else RunEvents(w, EndEventResult(w, p, evs[0]), evs[1..])
  }

  /** The output list the parser leaves, given the events of earlier feeds. */
  function RunFeed(w: Window, out: seq<Event>, evs: seq<VEvent>): Sink
    requires ValidEvents(evs)
  {
    var p := RunEvents(w, ParserState(Sink(out, false), []), evs);
    ApplyOverrides(w, p.sink, p.overrides)
  }

  /** Feeding the events to the parser and finishing computes RunFeed. */
  method ParseFeed(w: Window, out: seq<Event>, evs: seq<VEvent>) returns (parser: IcsParser)
    requires ValidEvents(evs)
    ensures fresh(parser) && parser.w == w
    ensures parser.Emitted() == RunFeed(w, out, evs) && parser.overrides == []
  {
    hide EndEventResult, ApplyOverrides;
    parser := new IcsParser(w, out);
    for i := 0 to |evs|
      invariant fresh(parser) && parser.w == w
      invariant RunEvents(w, parser.State(), evs[i..]) == RunEvents(w, ParserState(Sink(out, false), []), evs)
    {
      assert evs[i..][0] == evs[i] && evs[i..][1..] == evs[i + 1..];
      parser.EndEvent(evs[i]);
    }
    parser.Finish();
  }

  /** All starts of a VEVENT: DTSTART alone, or the due starts cut to COUNT. */
  function AllStarts(ev: VEvent, horizon: nat): seq<int>
    requires ValidEvent(ev)
  {
    if ev.rrule.Parsed? then Limited(Matches(EventSeries(ev), 0, horizon), ev.rrule.rule.count)
    else [EventStart(ev)]
  }

  /** One VEVENT read plainly: no fast-forward, no early stop, no dropped override. */
  function PlainEvent(w: Window, p: ParserState, ev: VEvent, horizon: nat): ParserState
    requires ValidEvent(ev)
  {
    if EventStart(ev) == 0 then p
    else if ev.recurrenceId.Some? then
      if ev.recurrenceId.value == 0 then p
      else p.(overrides := p.overrides + [OverrideOf(ev, w)])
    else if ev.raw.status.Cancelled? then p
    else p.(sink := EmitAll(EventTemplate(ev, w), p.sink, AllStarts(ev, horizon)))
  }

  function PlainEvents(w: Window, p: ParserState, evs: seq<VEvent>, horizon: nat): ParserState
    requires ValidEvents(evs)
    decreases |evs|
  {
    if evs == [] then p else PlainEvents(w, PlainEvent(w, p, evs[0], horizon), evs[1..], horizon)
  }

  function PlainFeed(w: Window, out: seq<Event>, evs: seq<VEvent>, horizon: nat): Sink
    requires ValidEvents(evs)
  {
    var p := PlainEvents(w, ParserState(Sink(out, false), []), evs, horizon);
    ApplyOverrides(w, p.sink, p.overrides)
  }

  /** A series whose loop limits cannot be felt in this window. */
  predicate SeriesFits(w: Window, s: Series, duration: int, horizon: nat)
    requires ValidSeries(s)
  {
    TolerableJump(s) && WithinCap(s, w) && ShortEnough(s, w, duration) && horizon >= ScanEnd(s, w)
  }

  /** An override, a single event, or a series whose loop limits cannot be felt. */
  predicate EventFits(w: Window, ev: VEvent, horizon: nat)
    requires ValidEvent(ev)
  {
    ev.recurrenceId.None? && ev.rrule.Parsed? ==> SeriesFits(w, EventSeries(ev), EventDuration(ev), horizon)
  }

  predicate EventsFit(w: Window, evs: seq<VEvent>, horizon: nat)
    requires ValidEvents(evs)
  {
    forall i :: 0 <= i < |evs| ==> EventFits(w, evs[i], horizon)
  }

  // ----- One event -----

  lemma {:induction false} KeepRelevantConcat(w: Window, a: seq<Event>, b: seq<Event>)
    ensures KeepRelevant(w, a + b) == KeepRelevant(w, a) + KeepRelevant(w, b)
  {
    hide Relevant;
    if a == [] {
      assert a + b == b;
    } else {
      assert (a + b)[0] == a[0] && (a + b)[1..] == a[1..] + b;
      KeepRelevantConcat(w, a[1..], b);
    }
  }

  // The plain reading and the parser agree up to the overrides that cannot matter.
  ghost predicate Agree(w: Window, p: ParserState, q: ParserState) {
    && p.sink == q.sink
    && p.overrides == KeepRelevant(w, q.overrides)
    && AreOverrides(q.overrides)
  }

  lemma BaseEventAgrees(w: Window, sink: Sink, ev: VEvent, horizon: nat)
    requires ValidEvent(ev) && EventFits(w, ev, horizon) && ev.recurrenceId.None?
    ensures var t := EventTemplate(ev, w);
            var starts := if ev.rrule.Parsed? then LoopStarts(EventSeries(ev), w) else [EventStart(ev)];
            EmitAll(t, sink, starts) == EmitAll(t, sink, AllStarts(ev, horizon))
  {
    hide EmitAll, LoopStarts, Matches, TolerableJump, WithinCap, ShortEnough, ScanEnd, ValidZone, ValidCivil;
    hide EventStart;
    if ev.rrule.Parsed? {
      ExpansionComplete(EventTemplate(ev, w), sink, EventSeries(ev), horizon);
    }
  }

  lemma OverrideAgrees(w: Window, p: ParserState, q: ParserState, ov: Event)
    requires Agree(w, p, q) && ov.isOverride
    ensures Agree(w, if Relevant(w, ov) then p.(overrides := p.overrides + [ov]) else p,
                  q.(overrides := q.overrides + [ov]))
  {
    hide Relevant;
    KeepRelevantConcat(w, q.overrides, [ov]);
    assert [ov][1..] == [];
    assert KeepRelevant(w, [ov]) == if Relevant(w, ov) then [ov] else [];
    assert p.overrides + [] == p.overrides;
  }

  lemma EventAgrees(w: Window, p: ParserState, q: ParserState, ev: VEvent, horizon: nat)
    requires ValidEvent(ev) && EventFits(w, ev, horizon) && Agree(w, p, q)
    requires |KeepRelevant(w, PlainEvent(w, q, ev, horizon).overrides)| <= MAX_OVERRIDES
    ensures Agree(w, EndEventResult(w, p, ev), PlainEvent(w, q, ev, horizon))
  {
    hide EmitAll, LoopStarts, EventStart, EventTemplate, EventDuration, AllStarts, ValidZone, ValidCivil, Relevant;
    hide KeepRelevant, EventFits;
    if ev.recurrenceId.Some? {
      var ov := OverrideOf(ev, w);
      hide OverrideOf;
      OverrideAgrees(w, p, q, ov);
    } else {
      BaseEventAgrees(w, q.sink, ev, horizon);
    }
  }

  // ----- The whole feed -----

  lemma {:induction false} PlainKeepsOverrides(w: Window, q: ParserState, evs: seq<VEvent>, horizon: nat)
    requires ValidEvents(evs)
    ensures q.overrides <= PlainEvents(w, q, evs, horizon).overrides
    ensures |KeepRelevant(w, q.overrides)| <= |KeepRelevant(w, PlainEvents(w, q, evs, horizon).overrides)|
    decreases |evs|
  {
    hide EmitAll, EventStart, EventTemplate, OverrideOf, AllStarts, ValidZone, ValidCivil;
    if evs != [] {
      var q' := PlainEvent(w, q, evs[0], horizon);
      KeepRelevantConcat(w, q.overrides, q'.overrides[|q.overrides|..]);
      assert q'.overrides == q.overrides + q'.overrides[|q.overrides|..];
      PlainKeepsOverrides(w, q', evs[1..], horizon);
    }
  }

  lemma {:induction false} EventsAgree(w: Window, p: ParserState, q: ParserState, evs: seq<VEvent>, horizon: nat)
    requires ValidEvents(evs) && EventsFit(w, evs, horizon) && Agree(w, p, q)
    requires |KeepRelevant(w, PlainEvents(w, q, evs, horizon).overrides)| <= MAX_OVERRIDES
    ensures Agree(w, RunEvents(w, p, evs), PlainEvents(w, q, evs, horizon))
    decreases |evs|
  {
    hide EndEventResult, PlainEvent, Agree, EventFits, KeepRelevant, ValidEvent;
    if evs != [] {
      PlainKeepsOverrides(w, PlainEvent(w, q, evs[0], horizon), evs[1..], horizon);
      EventAgrees(w, p, q, evs[0], horizon);
      EventsAgree(w, EndEventResult(w, p, evs[0]), PlainEvent(w, q, evs[0], horizon), evs[1..], horizon);
    }
  }

  /**
   * The parser's output for a feed is that of the plain reading: fast-forward, early stops,
   * iteration caps and dropped overrides never show. No base event in the list starts a day or
   * more outside the window; how long the events are does not matter by itself.
   */
  lemma FeedExact(w: Window, out: seq<Event>, evs: seq<VEvent>, horizon: nat)
    requires ValidEvents(evs) && EventsFit(w, evs, horizon)
    requires BasesNear(w, PlainEvents(w, ParserState(Sink(out, false), []), evs, horizon).sink.out)
    requires |KeepRelevant(w, PlainEvents(w, ParserState(Sink(out, false), []), evs, horizon).overrides)| <= 200
    ensures RunFeed(w, out, evs) == PlainFeed(w, out, evs, horizon)
  {
    hide EventsFit, ApplyOverrides, RunEvents, PlainEvents, BasesNear;
    var p := ParserState(Sink(out, false), []);
    assert Agree(w, p, p);
    EventsAgree(w, p, p, evs, horizon);
    var q := PlainEvents(w, p, evs, horizon);
    PruningHarmless(w, q.sink, q.overrides);
  }

  // ----- Feeds of short events -----

  lemma {:induction false} EmitAllKeepsNear(t: Template, sink: Sink, starts: seq<int>)
    requires BasesNear(t.w, sink.out) && t.duration <= DAY
    ensures BasesNear(t.w, EmitAll(t, sink, starts).out)
    decreases |starts|
  {
    if starts != [] {
      assert BasesNear(t.w, Emit(t, sink, starts[0]).out);
      EmitAllKeepsNear(t, Emit(t, sink, starts[0]), starts[1..]);
    }
  }

  /** Every base event lasts at most a day. */
  predicate ShortEvents(evs: seq<VEvent>)
    requires ValidEvents(evs)
  {
    forall i :: 0 <= i < |evs| && evs[i].recurrenceId.None? ==> EventDuration(evs[i]) <= DAY
  }

  /** Such events start within a day of the window they show in. */
  lemma {:induction false} ShortEventsStartNear(w: Window, p: ParserState, evs: seq<VEvent>, horizon: nat)
    requires ValidEvents(evs) && ShortEvents(evs) && BasesNear(w, p.sink.out)
    ensures BasesNear(w, PlainEvents(w, p, evs, horizon).sink.out)
    decreases |evs|
  {
    hide BasesNear, EmitAll, EventDuration, EventStart, OverrideOf, AllStarts, ValidEvent;
    if evs != [] {
      var ev := evs[0];
      if ev.recurrenceId.None? {
        EmitAllKeepsNear(EventTemplate(ev, w), p.sink, AllStarts(ev, horizon));
      }
      ShortEventsStartNear(w, PlainEvent(w, p, ev, horizon), evs[1..], horizon);
    }
  }
}
