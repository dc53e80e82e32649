/**
 * When the fast-forwarded, early-ended day loop loses occurrences: the exact condition, for all
 * rules stepped by day without COUNT, with what it comes to in a zone without transitions.
 */
module FastForwardLimit {
  import opened Zones
  import opened CalendarEvents
  import opened Recurrence

  /** For every window within the cap the parser emits what the plain list of due starts emits. */
  ghost predicate NeverLoses(s: Series, duration: int)
    requires ValidSeries(s)
  {
    forall t: Template, sink: Sink, horizon: nat ::
      t.duration == duration && WithinCap(s, t.w) && horizon >= ScanEnd(s, t.w) ==>
        EmitAll(t, sink, LoopStarts(s, t.w))
        == EmitAll(t, sink, Limited(Matches(s, 0, horizon), s.rule.count))
  }

  /** The first step of the cycle after the i-th step's. */
  function NextCycle(s: Series, i: nat): (n: nat)
    requires ValidSeries(s)
    ensures n > i
  {
    LastMultiple(i, Step(s)) + Step(s)
  }

  lemma NextCycleIs(s: Series, i: nat)
    requires ValidSeries(s)
    ensures NextCycle(s, i) % Step(s) == 0
  {
    hide Step, ValidSeries;
    LastMultipleIs(i, Step(s));
    ModShift(LastMultiple(i, Step(s)), Step(s));
  }

  // The next cycle is the first multiple above.
  lemma {:induction false} CycleReachedAt(i: nat, n: nat, step: int)
    requires step >= 1 && i < n && n % step == 0
    ensures LastMultiple(i, step) + step <= n
  {
    MultipleAtLeast(n, step);
    if i >= step {
      ModShift(n - step, step);
      CycleReachedAt(i - step, n - step, step);
    }
  }

  /** The i-th step's occurrence, if there is one, is over two days into the next cycle. */
  predicate InTime(s: Series, duration: int, i: nat)
    requires ValidSeries(s)
  {
    Qualifies(s, i) ==> VisitAt(s, i).start + duration <= DtStart(s) + (NextCycle(s, i) + 2) * DAY
  }

  /** Every occurrence is over two days into the next cycle, by the clock of DTSTART. */
  ghost predicate EndsInTime(s: Series, duration: int)
    requires ValidSeries(s)
  {
    forall i: nat :: InTime(s, duration, i)
  }

  // ----- Nothing is lost -----

  lemma InTimeSkipsNothing(t: Template, s: Series)
    requires ValidSeries(s) && ByDays(s) && EndsInTime(s, t.duration)
    ensures SkipsNothing(t, s)
  {
    hide VisitAt, ValidSeries, DtStart, ByDays, NextCycle, Qualifies, Step;
    var n := FastForward(s, t.w);
    FastForwardIs(s, t.w);
    hide FastForward;
    forall k | 0 <= k < |Matches(s, 0, n)| ensures !Wanted(t, Matches(s, 0, n)[k]) {
      var i := MatchesQualify(s, 0, n, k);
      CycleReached(s, i, n);
      assert InTime(s, t.duration, i);
    }
  }

  lemma CycleReached(s: Series, i: nat, n: nat)
    requires ValidSeries(s) && i < n && n % Step(s) == 0
    ensures NextCycle(s, i) <= n
  {
    hide Step, ValidSeries;
    CycleReachedAt(i, n, Step(s));
  }

  lemma InTimeNeverLoses(s: Series, duration: int)
    requires ValidSeries(s) && ByDays(s) && s.rule.count < 0 && TolerableJump(s) && EndsInTime(s, duration)
    ensures NeverLoses(s, duration)
  {
    hide ValidSeries, ByDays, TolerableJump, EndsInTime, Matches, LoopStarts, ScanEnd, WithinCap, EmitAll, Limited, SkipsNothing;
    forall t: Template, sink: Sink, horizon: nat
      | t.duration == duration && WithinCap(s, t.w) && horizon >= ScanEnd(s, t.w)
      ensures EmitAll(t, sink, LoopStarts(s, t.w))
           == EmitAll(t, sink, Limited(Matches(s, 0, horizon), s.rule.count))
    {
      InTimeSkipsNothing(t, s);
      LoopComplete(t, sink, s, horizon);
    }
  }

  // ----- Counting what is emitted -----

  lemma {:induction false} MatchesContain(s: Series, lo: nat, hi: nat, i: nat)
    requires ValidSeries(s) && lo <= i < hi && Qualifies(s, i)
    ensures VisitAt(s, i).start in Matches(s, lo, hi)
    decreases i - lo
  {
    hide VisitAt, Qualifies, ValidSeries;
    if lo < i {
      MatchesContain(s, lo + 1, hi, i);
    }
  }

  lemma {:induction false} WantedContain(t: Template, starts: seq<int>, x: int)
    ensures |WantedStarts(t, starts)| <= |starts|
    ensures x in starts && Wanted(t, x) ==> x in WantedStarts(t, starts)
    ensures x in WantedStarts(t, starts) ==> x in starts
  {
    hide Wanted;
    if starts != [] {
      WantedContain(t, starts[1..], x);
    }
  }

  // With room for everything, exactly the wanted starts are emitted.
  lemma RoomForAll(t: Template, starts: seq<int>)
    requires t.w.maxEvents >= |starts|
    ensures EmitAll(t, Sink([], false), starts).out == Events(t, WantedStarts(t, starts))
  {
    hide Wanted, MakeEvent, EmitAll, WantedStarts;
    EmitAllAppends(t, Sink([], false), starts);
    WantedContain(t, starts, 0);
    var ws := WantedStarts(t, starts);
    assert ws[..|ws|] == ws;
  }

  lemma {:induction false} WantedConcat(t: Template, a: seq<int>, b: seq<int>)
    ensures WantedStarts(t, a + b) == WantedStarts(t, a) + WantedStarts(t, b)
  {
    hide Wanted;
    if a == [] {
      assert a + b == b;
    } else {
      assert (a + b)[0] == a[0] && (a + b)[1..] == a[1..] + b;
      WantedConcat(t, a[1..], b);
    }
  }

  // A loop that hands out only part of a middle stretch misses a wanted start outside it.
  lemma Outnumbered(t: Template, loop: seq<int>, before: seq<int>, middle: seq<int>, after: seq<int>, x: int)
    requires loop <= middle && x in before + after && Wanted(t, x)
    requires t.w.maxEvents >= |before + middle + after|
    ensures EmitAll(t, Sink([], false), loop) != EmitAll(t, Sink([], false), before + middle + after)
  {
    hide Wanted, EmitAll, WantedStarts, MakeEvent;
    var tail := middle[|loop|..];
    assert middle == loop + tail;
    RoomForAll(t, loop);
    RoomForAll(t, before + middle + after);
    WantedConcat(t, before + middle, after);
    WantedConcat(t, before, middle);
    WantedConcat(t, loop, tail);
    WantedContain(t, before, x);
    WantedContain(t, after, x);
  }

  // A window in which the loop and the plain list differ.
  lemma Loses(s: Series, duration: int, w: Window, horizon: nat, before: seq<int>, middle: seq<int>, after: seq<int>, x: int)
    requires ValidSeries(s) && s.rule.count < 0 && WithinCap(s, w) && horizon >= ScanEnd(s, w)
    requires Matches(s, 0, horizon) == before + middle + after && LoopStarts(s, w) <= middle && x in before + after
    requires x + duration > w.start && x < w.end
    ensures !NeverLoses(s, duration)
  {
    hide ValidSeries, WithinCap, ScanEnd, Matches, LoopStarts, EmitAll;
    var w' := w.(maxEvents := |before + middle + after|);
    var t := Template(w', RawEvent("", "", [], Confirmed), duration, false);
    SameLoop(s, w, w');
    assert Wanted(t, x);
    Outnumbered(t, LoopStarts(s, w), before, middle, after, x);
    assert Limited(Matches(s, 0, horizon), s.rule.count) == Matches(s, 0, horizon);
    assert EmitAll(t, Sink([], false), LoopStarts(s, t.w))
        != EmitAll(t, Sink([], false), Limited(Matches(s, 0, horizon), s.rule.count));
  }

  // ----- Fast-forward loses a late one -----

  /** A second, two days into the cycle that starts with step n. */
  function NarrowWindow(s: Series, n: nat): Window
    requires ValidSeries(s)
  {
    var start := DtStart(s) + (n + 2) * DAY;
    Window(start, start + 1, 0, 0)
  }

  lemma NarrowStartsAtCycle(s: Series, n: nat)
    requires ValidSeries(s) && ByDays(s) && s.rule.count < 0 && DstJump(s.zone) <= 3 * DAY
    requires n > 0 && n % Step(s) == 0
    ensures FastForward(s, NarrowWindow(s, n)) == n && ScanEnd(s, NarrowWindow(s, n)) == n + MAX_DAY_ITERATIONS
    ensures WithinCap(s, NarrowWindow(s, n))
  {
    hide DtStart, DstJump, ValidSeries, Step, ByDays;
    CycleOfMultiple(n, Step(s));
  }

  lemma {:induction false} CycleOfMultiple(n: nat, step: int)
    requires step >= 1 && n % step == 0
    ensures LastMultiple(n, step) == n
  {
    if n > 0 {
      MultipleAtLeast(n, step);
      ModShift(n - step, step);
      CycleOfMultiple(n - step, step);
    }
  }

  /** An occurrence not over two days into the next cycle is lost by the window that starts then. */
  lemma LateLosesOne(s: Series, duration: int, i: nat)
    requires ValidSeries(s) && ByDays(s) && s.rule.count < 0 && DstJump(s.zone) <= 3 * DAY
    ensures !InTime(s, duration, i) ==> !NeverLoses(s, duration)
  {
    hide ValidSeries, ByDays, DstJump, Step, VisitAt, NextCycle, Qualifies, Matches, LoopStarts, WithinCap, ScanEnd;
    hide FastForward;
    if !InTime(s, duration, i) {
      var n := NextCycle(s, i);
      NextCycleIs(s, i);
      NarrowStartsAtCycle(s, n);
      DayVisitSpread(s, i);
      MatchesContain(s, 0, n, i);
      MatchesConcat(s, 0, n, n + MAX_DAY_ITERATIONS);
      LoopFromStep(s, NarrowWindow(s, n), n);
      var skipped, rest := Matches(s, 0, n), Matches(s, n, n + MAX_DAY_ITERATIONS);
      assert skipped + rest == skipped + rest + [] && skipped + [] == skipped;
      Loses(s, duration, NarrowWindow(s, n), n + MAX_DAY_ITERATIONS, skipped, rest, [], VisitAt(s, i).start);
    }
  }

  lemma LoopFromStep(s: Series, w: Window, n: nat)
    requires ValidSeries(s) && FastForward(s, w) == n
    ensures LoopStarts(s, w) <= Matches(s, n, ScanEnd(s, w))
  {
    hide FastForward, ScanEnd, Scan, Matches, ValidSeries;
    ScanIsPrefix(s, n, ScanEnd(s, w), s.rule.count, w.end + 2 * DAY);
  }

  // ----- The break past UNTIL loses a return -----

  lemma {:induction false} ScanStopsAt(s: Series, lo: nat, hi: nat, remaining: int, horizon: int, p: nat)
    requires ValidSeries(s) && s.rule.until != 0 && IsPast(s, p) && lo <= p
    ensures Scan(s, lo, hi, remaining, horizon) <= Matches(s, lo, p)
    decreases p - lo
  {
    hide VisitAt, ValidSeries;
    if lo < hi && lo < p {
      if VisitAt(s, lo).At? && VisitAt(s, lo).due {
        ScanStopsAt(s, lo + 1, hi, if remaining > 0 then remaining - 1 else remaining, horizon, p);
      } else {
        ScanStopsAt(s, lo + 1, hi, remaining, horizon, p);
      }
    }
  }

  /** One step and a second's window stay under the iteration cap. */
  predicate StepUnderCap(s: Series)
    requires ValidSeries(s)
  {
    Step(s) * DAY + 1 + 3 * DAY + DstJump(s.zone) <= MAX_DAY_ITERATIONS * DAY
  }

  // Fast-forward to an occurrence that lies before a step's start does not pass that step.
  lemma StartsBefore(s: Series, w: Window, p: nat)
    requires ValidSeries(s) && ByDays(s) && DstJump(s.zone) <= 3 * DAY
    ensures VisitAt(s, p).At? && w.start < VisitAt(s, p).start ==> FastForward(s, w) <= p
  {
    hide DtStart, DstJump, ValidSeries, VisitAt, FastForward;
    FastForwardIs(s, w);
    DayVisitSpread(s, p);
  }

  /** A due start that comes back to UNTIL after the clock was past it is lost. */
  lemma ReturnLosesOne(s: Series, duration: int)
    requires ValidSeries(s) && ByDays(s) && s.rule.count < 0 && s.rule.until != 0 && DstJump(s.zone) <= 3 * DAY
    requires duration > 0 && StepUnderCap(s)
    ensures Returns(s) ==> !NeverLoses(s, duration)
  {
    hide ValidSeries, DstJump, Step, VisitAt, Matches, LoopStarts, WithinCap, ScanEnd, FastForward, PastStep, Scan, ByDays, DtStart;
    if Returns(s) {
      var p := PastStep(s);
      PastStepIs(s);
      var j := if Qualifies(s, p + 1) then p + 1 else p + 2;
      var x := VisitAt(s, j).start;
      var w := Window(x, x + 1, 0, 0);
      WindowUnderCap(s, w);
      StartsBefore(s, w, p);
      var n := FastForward(s, w);
      var horizon := if ScanEnd(s, w) > j then ScanEnd(s, w) else j + 1;
      MatchesConcat(s, 0, n, horizon);
      MatchesConcat(s, n, p, horizon);
      MatchesContain(s, p, horizon, j);
      LoopStops(s, w, p);
      var before, middle, after := Matches(s, 0, n), Matches(s, n, p), Matches(s, p, horizon);
      assert before + (middle + after) == before + middle + after;
      Loses(s, duration, w, horizon, before, middle, after, x);
    }
  }

  lemma LoopStops(s: Series, w: Window, p: nat)
    requires ValidSeries(s) && s.rule.until != 0
    ensures IsPast(s, p) && FastForward(s, w) <= p ==> LoopStarts(s, w) <= Matches(s, FastForward(s, w), p)
  {
    hide FastForward, ScanEnd, Scan, Matches, ValidSeries, IsPast;
    if IsPast(s, p) && FastForward(s, w) <= p {
      ScanStopsAt(s, FastForward(s, w), ScanEnd(s, w), s.rule.count, w.end + 2 * DAY, p);
    }
  }

  // ----- The exact condition -----

  /**
   * The day loop is exact for every window if and only if every occurrence is over two days into
   * the next cycle and the clock does not return to UNTIL.
   */
  lemma ExactCondition(s: Series, duration: int)
    requires ValidSeries(s) && ByDays(s) && s.rule.count < 0 && DstJump(s.zone) <= 3 * DAY
    requires duration > 0 && StepUnderCap(s)
    ensures NeverLoses(s, duration) <==> EndsInTime(s, duration) && (s.rule.until != 0 ==> !Returns(s))
  {
    hide NeverLoses, ValidSeries, ByDays, DstJump, Returns, StepUnderCap, InTime;
    if s.rule.until != 0 && Returns(s) {
      ReturnLosesOne(s, duration);
    } else if i: nat :| !InTime(s, duration, i) {
      LateLosesOne(s, duration, i);
    } else {
      InTimeNeverLoses(s, duration);
    }
  }

  // ----- Zones without transitions -----

  /** The last of the first upTo steps that is due and not past UNTIL, or -1. */
  function LastQualifying(s: Series, upTo: nat): int
    requires ValidSeries(s)
  {
    if upTo == 0 then -1
    else if Qualifies(s, upTo - 1) then upTo - 1
    else LastQualifying(s, upTo - 1)
  }

  lemma {:induction false} LastQualifyingIs(s: Series, upTo: nat)
    requires ValidSeries(s)
    ensures var n := LastQualifying(s, upTo);
            && -1 <= n < upTo && (n >= 0 ==> Qualifies(s, n))
            && forall i: nat :: i < upTo && Qualifies(s, i) ==> i <= n
  {
    hide Qualifies, ValidSeries;
    if upTo > 0 {
      LastQualifyingIs(s, upTo - 1);
    }
  }

  // What qualifies does so already in the first cycle.
  lemma QualifiesInFirstCycle(s: Series, i: nat)
    requires ValidSeries(s) && ByDays(s) && DstJump(s.zone) == 0
    ensures Qualifies(s, i) ==> Qualifies(s, i - LastMultiple(i, Step(s)))
  {
    hide Step, ValidSeries, DstJump, ByDays, VisitAt, Due, DtStart, LastMultiple;
    var k := i - LastMultiple(i, Step(s));
    LastMultipleIs(i, Step(s));
    DayVisitSpread(s, i);
    DayVisitSpread(s, k);
    DueCycle(s, i, i - k);
    DueVisited(s, i);
    DueVisited(s, k);
  }

  lemma DueVisited(s: Series, i: nat)
    requires ValidSeries(s) && ByDays(s)
    ensures VisitAt(s, i).At? && (VisitAt(s, i).due <==> Due(s, i))
  {
    hide Due, ValidZone, ValidCivil;
  }

  // Where an occurrence lies, and how far from the next cycle.
  lemma InItsCycle(s: Series, i: nat)
    requires ValidSeries(s) && ByDays(s) && DstJump(s.zone) == 0
    ensures VisitAt(s, i).At? && VisitAt(s, i).start == DtStart(s) + i * DAY
    ensures Qualifies(s, i) ==> LastQualifying(s, Step(s)) >= 0 && NextCycle(s, i) - i >= Step(s) - LastQualifying(s, Step(s)) > 0
  {
    hide ValidSeries, DstJump, VisitAt, DtStart, ByDays, Qualifies, LastQualifying, Step, LastMultiple;
    QualifiesInFirstCycle(s, i);
    LastQualifyingIs(s, Step(s));
    DayVisitSpread(s, i);
  }

  lemma InTimeClosedForm(s: Series, duration: int)
    requires ValidSeries(s) && ByDays(s) && DstJump(s.zone) == 0
    ensures var last := LastQualifying(s, Step(s));
            EndsInTime(s, duration) <==> last < 0 || duration <= (2 + Step(s) - last) * DAY
  {
    hide ValidSeries, DstJump, VisitAt, DtStart, ByDays, Qualifies, LastQualifying, Step, NextCycle;
    var step := Step(s);
    var last := LastQualifying(s, step);
    LastQualifyingIs(s, step);
    if last >= 0 {
      InItsCycle(s, last);
      assert NextCycle(s, last) == step by { FirstCycle(s, last); }
      assert EndsInTime(s, duration) ==> InTime(s, duration, last);
    }
    if last < 0 || duration <= (2 + step - last) * DAY {
      forall i: nat ensures InTime(s, duration, i) {
        if Qualifies(s, i) {
          InItsCycle(s, i);
        }
      }
    }
  }

  lemma FirstCycle(s: Series, i: nat)
    requires ValidSeries(s) && i < Step(s)
    ensures NextCycle(s, i) == Step(s)
  {
    hide Step, ValidSeries;
  }

  /**
   * In a zone without transitions: the event is no longer than two days plus the gap between the
   * last qualifying day of the first cycle and the next cycle, if any day qualifies at all.
   */
  lemma ExactWhenShort(s: Series, duration: int)
    requires ValidSeries(s) && ByDays(s) && s.rule.count < 0 && DstJump(s.zone) == 0
    ensures var last := LastQualifying(s, Step(s));
            NeverLoses(s, duration) <==> last < 0 || duration <= (2 + Step(s) - last) * DAY
  {
    hide NeverLoses, ValidSeries, ByDays, InTime, Step, LastQualifying, DstJump;
    InTimeClosedForm(s, duration);
    if i: nat :| !InTime(s, duration, i) {
      LateLosesOne(s, duration, i);
    } else {
      SmallJumpsTolerable(s);
      InTimeNeverLoses(s, duration);
    }
  }

  /** A longer event has a window in which an occurrence is lost. */
  lemma LongEventLosesOne(s: Series, duration: int)
    requires ValidSeries(s) && ByDays(s) && s.rule.count < 0 && DstJump(s.zone) == 0
    ensures var last := LastQualifying(s, Step(s));
            last >= 0 && duration > (2 + Step(s) - last) * DAY ==> !NeverLoses(s, duration)
  {
    hide NeverLoses, ValidSeries, ByDays, LastQualifying, Step, DstJump;
    ExactWhenShort(s, duration);
  }

  /** A daily rule: the event lasts at most INTERVAL + 2 days, or UNTIL lies before DTSTART. */
  lemma DailyLimit(s: Series, duration: int)
    requires ValidSeries(s) && s.rule.freq.Daily? && s.rule.count < 0 && DstJump(s.zone) == 0
    ensures NeverLoses(s, duration)
            <==> (s.rule.until != 0 && s.rule.until < DtStart(s)) || duration <= (2 + s.rule.interval) * DAY
  {
    hide NeverLoses, DstJump, ValidZone, ValidCivil;
    ExactWhenShort(s, duration);
    hide NeverLoses;
    DailyLast(s);
  }

  lemma DailyLast(s: Series)
    requires ValidSeries(s) && s.rule.freq.Daily? && DstJump(s.zone) == 0
    ensures LastQualifying(s, Step(s)) == if s.rule.until != 0 && s.rule.until < DtStart(s) then -1 else 0
  {
    hide VisitAt, DstJump, DtStart, ValidSeries, LastQualifying, Due, Step, Qualifies;
    var n := LastQualifying(s, Step(s));
    DailyDue(s);
    LastQualifyingIs(s, Step(s));
    StartQualifies(s);
    if n >= 0 {
      VisitedIsDue(s, n);
    }
  }

  lemma StartQualifies(s: Series)
    requires ValidSeries(s) && s.rule.freq.Daily? && DstJump(s.zone) == 0
    ensures Qualifies(s, 0) <==> s.rule.until == 0 || DtStart(s) <= s.rule.until
  {
    hide VisitAt, DstJump, DtStart, ValidSeries, Due, Step;
    DailyDue(s);
    DayVisitSpread(s, 0);
    DueVisited(s, 0);
  }

  lemma DailyDue(s: Series)
    requires ValidSeries(s) && s.rule.freq.Daily?
    ensures forall n: nat :: n < Step(s) ==> (Due(s, n) <==> n == 0)
  {
    forall n: nat | n < Step(s) ensures Due(s, n) <==> n == 0 {
      SmallMod(n, s.rule.interval);
    }
  }

  lemma SmallMod(n: nat, k: int)
    requires n < k
    ensures n % k == n
  {
  }
}
