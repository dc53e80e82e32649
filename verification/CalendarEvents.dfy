/**
 * The events a feed produces and how one occurrence is emitted: EXDATE, the
 * lookahead window and the capacity of the output list.
 */
module CalendarEvents {
  datatype Status = Tentative | Confirmed | Cancelled

  datatype Event = Event(
    uid: string, title: string, start: int, end: int, allDay: bool, status: Status,
    calIndex: int, isOverride: bool, recurrenceId: int)

  /** [start, end) with the most events the output list may hold. */
  datatype Window = Window(start: int, end: int, maxEvents: nat, calIndex: int)

  datatype RawEvent = RawEvent(uid: string, summary: string, exdates: seq<int>, status: Status)

  /** Everything about a VEVENT's occurrences but their start. */
  datatype Template = Template(w: Window, raw: RawEvent, duration: int, allDay: bool)

  /** The part of the parser that emitting changes. */
  datatype Sink = Sink(out: seq<Event>, truncated: bool)

  predicate Overlaps(w: Window, start: int, end: int) {
    end > w.start && start < w.end
  }

  predicate Wanted(t: Template, start: int) {
    start !in t.raw.exdates && Overlaps(t.w, start, start + t.duration)
  }

  function MakeEvent(t: Template, start: int): Event {
    Event(t.raw.uid, if t.raw.summary == "" then "(untitled)" else t.raw.summary,
          start, start + t.duration, t.allDay, t.raw.status, t.w.calIndex, false, 0)
  }

  function Emit(t: Template, sink: Sink, start: int): Sink {
    if !Wanted(t, start) then sink
    else if |sink.out| >= t.w.maxEvents then sink.(truncated := true)
    else sink.(out := sink.out + [MakeEvent(t, start)])
  }

  function EmitAll(t: Template, sink: Sink, starts: seq<int>): Sink
    decreases |starts|
  {
    if starts == [] then sink
    else EmitAll(t, Emit(t, sink, starts[0]), starts[1..])
  }

  lemma {:induction false} EmitAllConcat(t: Template, sink: Sink, a: seq<int>, b: seq<int>)
    ensures EmitAll(t, sink, a + b) == EmitAll(t, EmitAll(t, sink, a), b)
    decreases |a|
  {
    if a == [] {
      assert a + b == b;
    } else {
      hide Emit;
      assert (a + b)[0] == a[0] && (a + b)[1..] == a[1..] + b;
      EmitAllConcat(t, Emit(t, sink, a[0]), a[1..], b);
    }
  }

  lemma {:induction false} EmitNoneWanted(t: Template, sink: Sink, starts: seq<int>)
    requires forall i :: 0 <= i < |starts| ==> !Wanted(t, starts[i])
    ensures EmitAll(t, sink, starts) == sink
    decreases |starts|
  {
    hide Wanted;
    if starts != [] {
      EmitNoneWanted(t, sink, starts[1..]);
    }
  }

  /** The wanted starts, in order. */
  function WantedStarts(t: Template, starts: seq<int>): seq<int> {
    if starts == [] then []
    else (if Wanted(t, starts[0]) then [starts[0]] else []) + WantedStarts(t, starts[1..])
  }

  function Events(t: Template, starts: seq<int>): (es: seq<Event>)
    ensures |es| == |starts|
    ensures forall i :: 0 <= i < |es| ==> es[i] == MakeEvent(t, starts[i])
  {
    seq(|starts|, i requires 0 <= i < |starts| => MakeEvent(t, starts[i]))
  }

  /** How many of n more events still fit. */
  function Fitting(t: Template, sink: Sink, n: nat): (k: nat)
    ensures k <= n
  {
    var room := t.w.maxEvents - |sink.out|;
    if room <= 0 then 0 else if n <= room then n else room
  }

  /**
   * Emitting appends the events of the wanted starts, in order, for as long as there
   * is room, and says so exactly when one of them did not fit.
   */
  lemma {:induction false} EmitAllAppends(t: Template, sink: Sink, starts: seq<int>)
    ensures var ws := WantedStarts(t, starts);
            var k := Fitting(t, sink, |ws|);
            && EmitAll(t, sink, starts).out == sink.out + Events(t, ws[..k])
            && (EmitAll(t, sink, starts).truncated <==> sink.truncated || k < |ws|)
    decreases |starts|
  {
    hide Wanted, MakeEvent;
    if starts == [] {
      assert WantedStarts(t, starts)[..0] == [] && Events(t, []) == [];
    } else {
      var next := Emit(t, sink, starts[0]);
      EmitAllAppends(t, next, starts[1..]);
      if Wanted(t, starts[0]) {
        EmitOneMore(t, sink, starts[0], WantedStarts(t, starts[1..]));
      } else {
        assert WantedStarts(t, starts) == WantedStarts(t, starts[1..]);
      }
    }
  }

  lemma EmitOneMore(t: Template, sink: Sink, start: int, rest: seq<int>)
    requires Wanted(t, start)
    ensures var next := Emit(t, sink, start);
            var ws := [start] + rest;
            var k, k' := Fitting(t, sink, |ws|), Fitting(t, next, |rest|);
            && next.out + Events(t, rest[..k']) == sink.out + Events(t, ws[..k])
            && (next.truncated || k' < |rest| <==> sink.truncated || k < |ws|)
  {
    hide Wanted;
    var next := Emit(t, sink, start);
    var k, k' := Fitting(t, sink, 1 + |rest|), Fitting(t, next, |rest|);
    if |sink.out| < t.w.maxEvents {
      assert ([start] + rest)[..k] == [start] + rest[..k'];
      assert Events(t, [start] + rest[..k']) == [MakeEvent(t, start)] + Events(t, rest[..k']);
    } else {
      assert k == 0 && k' == 0;
    }
  }

  /** The wanted starts of an increasing list increase. */
  predicate Increasing(s: seq<int>) {
    forall i, j :: 0 <= i < j < |s| ==> s[i] < s[j]
  }

  lemma {:induction false} WantedIncrease(t: Template, starts: seq<int>)
    requires Increasing(starts)
    ensures Increasing(WantedStarts(t, starts))
    ensures forall x :: x in WantedStarts(t, starts) ==> x in starts && Wanted(t, x)
  {
    hide Wanted;
    if starts != [] {
      var rest := WantedStarts(t, starts[1..]);
      WantedIncrease(t, starts[1..]);
      forall x | x in rest ensures x in starts && starts[0] < x {
        var i :| 0 <= i < |starts[1..]| && starts[1..][i] == x;
        assert starts[i + 1] == x;
      }
      forall i | 0 <= i < |rest| ensures starts[0] < rest[i] {
        assert rest[i] in rest;
      }
    }
  }
}
