/**
 * How long the device sleeps: the hourly sync, the calendar reminders that have not
 * fired, and the checkpoints of a Pomodoro session, folded into one timer.
 */
module Wake {
  import opened Options
  import opened CArith
  import opened Pomodoro

  const MIN_SLEEP_SECONDS: int := 30
  const UINT32: int := 0x1_0000_0000

  /** The reminder settings; the lead is in minutes. */
  datatype Settings = Settings(beforeStart: bool, leadMinutes: nat, atEnd: bool)

  /** The next event, with the reminder targets that have fired already. */
  datatype EventInfo = EventInfo(hasEvent: bool, start: int, end: int, alertedForStart: int, alertedForEnd: int)

  datatype Alert = NoAlert | BeforeStart | AtEnd

  datatype Decision = Decision(alert: Alert, sleepSeconds: int, event: EventInfo)

  function StartTarget(s: Settings, e: EventInfo): int {
    e.start - s.leadMinutes * 60
  }

  /** The cast to 32 bits that shortens a sleep towards a target. */
  function Until(target: int, now: int, sleep: int): int {
    var u := (target - now) % UINT32;
    if u < sleep then u else sleep
  }

  predicate StartArmed(s: Settings, e: EventInfo) {
    e.hasEvent && s.beforeStart && e.alertedForStart != StartTarget(s, e)
  }

  predicate EndArmed(s: Settings, e: EventInfo) {
    e.hasEvent && s.atEnd && e.alertedForEnd != e.end
  }

  /** The decision as a whole: what fires, what is stamped, how long to sleep. */
  function Decide(s: Settings, e: EventInfo, now: int, base: int): Decision {
    if !e.hasEvent then Decision(NoAlert, base, e)
    else
      var startFires := StartArmed(s, e) && now >= StartTarget(s, e);
      var endFires := EndArmed(s, e) && now >= e.end;
      var e1 := if startFires then e.(alertedForStart := StartTarget(s, e)) else e;
      var e2 := if endFires then e1.(alertedForEnd := e.end) else e1;
      var s1 := if StartArmed(s, e) && !startFires then Until(StartTarget(s, e), now, base) else base;
      var s2 := if EndArmed(s, e) && !endFires then Until(e.end, now, s1) else s1;
      Decision(if startFires then BeforeStart else if endFires then AtEnd else NoAlert,
               if s2 < MIN_SLEEP_SECONDS then MIN_SLEEP_SECONDS else s2, e2)
  }

  /** The stored record of the next event, stamped in place when a reminder fires. */
  class NextEvent {
    var info: EventInfo

    constructor (info: EventInfo)
      ensures this.info == info
    {
      this.info := info;
    }
  }

  method ComputeWakeDecision(settings: Settings, event: NextEvent, now: int, baseInterval: int)
    returns (alert: Alert, sleepSeconds: int)
    modifies event
    ensures Decision(alert, sleepSeconds, event.info) == Decide(settings, old(event.info), now, baseInterval)
  {
    alert, sleepSeconds := NoAlert, baseInterval;
    if !event.info.hasEvent {
      return;
    }
    var beforeStartFired, atEndFired := false, false;
    if settings.beforeStart {
      var target := event.info.start - settings.leadMinutes * 60;
      if event.info.alertedForStart != target {
        if now >= target {
          beforeStartFired := true;
          event.info := event.info.(alertedForStart := target);
        } else {
          var untilTarget := (target - now) % UINT32;
          if untilTarget < sleepSeconds {
            sleepSeconds := untilTarget;
          }
        }
      }
    }
    if settings.atEnd {
      var target := event.info.end;
      if event.info.alertedForEnd != target {
        if now >= target {
          atEndFired := true;
          event.info := event.info.(alertedForEnd := target);
        } else {
          var untilTarget := (target - now) % UINT32;
          if untilTarget < sleepSeconds {
            sleepSeconds := untilTarget;
          }
        }
      }
    }
    if beforeStartFired {
      alert := BeforeStart;
    } else if atEndFired {
      alert := AtEnd;
    }
    if sleepSeconds < MIN_SLEEP_SECONDS {
      sleepSeconds := MIN_SLEEP_SECONDS;
    }
  }

  // ----- Reminders are neither missed nor repeated -----

  lemma CastOnlyShortens(a: int)
    requires a > 0
    ensures 0 <= a % UINT32 <= a
  {
  }

  /** Sleeping as decided passes a target that is still to fire by at most 29 seconds. */
  lemma TargetHardlyPassed(s: Settings, e: EventInfo, now: int, base: int)
    ensures var wake := now + Decide(s, e, now, base).sleepSeconds;
            && (StartArmed(s, e) && now < StartTarget(s, e) ==> wake <= StartTarget(s, e) + 29)
            && (EndArmed(s, e) && now < e.end ==> wake <= e.end + 29)
    ensures base >= MIN_SLEEP_SECONDS ==> MIN_SLEEP_SECONDS <= Decide(s, e, now, base).sleepSeconds <= base
  {
    hide UINT32;
    if StartArmed(s, e) && now < StartTarget(s, e) {
      CastOnlyShortens(StartTarget(s, e) - now);
    }
    if EndArmed(s, e) && now < e.end {
      CastOnlyShortens(e.end - now);
    }
  }

  /** The alerts of a run of wakes with the same settings and an event that stays the same. */
  function Alerts(s: Settings, e: EventInfo, wakes: seq<int>, base: int): (alerts: seq<Alert>)
    ensures |alerts| == |wakes|
    decreases |wakes|
  {
    if wakes == [] then []
    else
      var d := Decide(s, e, wakes[0], base);
      [d.alert] + Alerts(s, d.event, wakes[1..], base)
  }

  function Count(alerts: seq<Alert>, a: Alert): nat {
    if alerts == [] then 0 else (if alerts[0] == a then 1 else 0) + Count(alerts[1..], a)
  }

  /** Over any run of wakes each reminder shows at most once, and not at all once it has fired. */
  lemma {:induction false} EachFiresOnce(s: Settings, e: EventInfo, wakes: seq<int>, base: int)
    ensures Count(Alerts(s, e, wakes, base), BeforeStart) <= (if StartArmed(s, e) then 1 else 0)
    ensures Count(Alerts(s, e, wakes, base), AtEnd) <= (if EndArmed(s, e) then 1 else 0)
    decreases |wakes|
  {
    if wakes != [] {
      var d := Decide(s, e, wakes[0], base);
      hide Until;
      assert Alerts(s, e, wakes, base)[1..] == Alerts(s, d.event, wakes[1..], base);
      EachFiresOnce(s, d.event, wakes[1..], base);
    }
  }

  /** A reminder that is due is shown, unless the other one is shown in its place. */
  lemma DueIsShown(s: Settings, e: EventInfo, now: int, base: int)
    ensures Decide(s, e, now, base).alert.BeforeStart? <==> StartArmed(s, e) && now >= StartTarget(s, e)
    ensures Decide(s, e, now, base).alert.AtEnd?
            <==> EndArmed(s, e) && now >= e.end && !(StartArmed(s, e) && now >= StartTarget(s, e))
  {
    hide Until;
  }

  /** A reminder that is switched on and has not fired for this time. */
  predicate Pending(enabled: bool, fired: int, target: int) {
    enabled && fired != target
  }

  /**
   * The decision on an event, in the settings' own terms: the reminder before the start comes leadMinutes
   * minutes before it, a reminder that fires is noted for its target, and the sleep is the base interval or
   * leads to the sooner target ahead, but lasts 30 seconds at least. Sleeps are of less than 2^32 seconds.
   */
  lemma DecisionMeans(s: Settings, e: EventInfo, now: int, base: int)
    ensures var d := Decide(s, e, now, base);
            var lead := e.start - 60 * s.leadMinutes;
            var before, after := Pending(s.beforeStart, e.alertedForStart, lead), Pending(s.atEnd, e.alertedForEnd, e.end);
            && (!e.hasEvent ==> d == Decision(NoAlert, base, e))
            && (e.hasEvent ==>
                  && d.alert == (if before && now >= lead then BeforeStart else if after && now >= e.end then AtEnd else NoAlert)
                  && d.event == e.(alertedForStart := if before && now >= lead then lead else e.alertedForStart,
                                   alertedForEnd := if after && now >= e.end then e.end else e.alertedForEnd)
                  && d.sleepSeconds >= 30
                  && (base >= 30 ==> d.sleepSeconds <= base)
                  && (before && lead - now >= 30 ==> d.sleepSeconds <= lead - now)
                  && (after && e.end - now >= 30 ==> d.sleepSeconds <= e.end - now)
                  && (base < 0x1_0000_0000 && lead - now < 0x1_0000_0000 && e.end - now < 0x1_0000_0000 ==>
                        || d.sleepSeconds == base
                        || (before && now < lead && d.sleepSeconds == lead - now)
                        || (after && now < e.end && d.sleepSeconds == e.end - now)
                        || (d.sleepSeconds == 30
                            && (base < 30 || (before && now < lead < now + 30) || (after && now < e.end < now + 30)))))
  {
    assert StartTarget(s, e) == e.start - 60 * s.leadMinutes;
    UntilMeans(StartTarget(s, e), now, base);
    UntilMeans(e.end, now, base);
    UntilMeans(e.end, now, Until(StartTarget(s, e), now, base));
    hide Until, StartTarget;
  }

  lemma UntilMeans(target: int, now: int, sleep: int)
    ensures Until(target, now, sleep) <= sleep
    ensures now < target ==> Until(target, now, sleep) <= target - now
    ensures now < target && target - now < 0x1_0000_0000 ==>
              Until(target, now, sleep) == if target - now < sleep then target - now else sleep
  {
  }

  // ----- Pomodoro checkpoints -----

  /** Seconds to the next checkpoint or the end of the phase; none when idle. */
  function SecondsUntilNextCheckpoint(p: State, now: int): Option<int> {
    if p.phase.Idle? then None
    else if now >= p.phaseEnd then Some(0)
    else if p.config.checkpointMinutes == 0 then Some((p.phaseEnd - now) % UINT32)
    else
      var every := p.config.checkpointMinutes * 60;
      var elapsed := if now > p.phaseStart then now - p.phaseStart else 0;
      var nextBoundary := p.phaseStart + (TruncDiv(elapsed, every) + 1) * every;
      var wakeAt := if nextBoundary < p.phaseEnd then nextBoundary else p.phaseEnd;
      if wakeAt <= now then Some(0) else Some((wakeAt - now) % UINT32)
  }

  /** A moment the session wants to be awake at: a checkpoint inside the phase, or its end. */
  predicate WakePoint(p: State, t: int) {
    t == p.phaseEnd || (p.config.checkpointMinutes > 0 && p.phaseStart < t < p.phaseEnd
                        && OnGrid(p.phaseStart, p.config.checkpointMinutes * 60, t))
  }

  /** A whole number of intervals after the start. */
  predicate OnGrid(start: int, every: int, t: int)
    requires every > 0
  {
    (t - start) % every == 0
  }

  /** The session is in the middle of a phase, which fits 32 bits. */
  predicate UpToDate(p: State, now: int) {
    !p.phase.Idle? && p.phaseStart <= now < p.phaseEnd && p.phaseEnd - p.phaseStart < UINT32
  }

  lemma NextMultiple(a: int, k: int, b: int)
    requires a >= 0 && k > 0 && a < b && b % k == 0
    ensures a < (a / k + 1) * k <= b && ((a / k + 1) * k) % k == 0
  {
    assert a == k * (a / k) + a % k;
    assert b == k * (b / k) + b % k;
    Distribute(a / k + 1, k, 0);
    if b / k <= a / k {
      MulMono(b / k, a / k, k);
    } else {
      MulMono(a / k + 1, b / k, k);
    }
    DivUnique((a / k + 1) * k, k, a / k + 1, 0);
  }

  lemma NextMultipleAfter(a: int, k: int)
    requires a >= 0 && k > 0
    ensures a < (a / k + 1) * k && ((a / k + 1) * k) % k == 0
  {
    assert a == k * (a / k) + a % k;
    Distribute(a / k + 1, k, 0);
    DivUnique((a / k + 1) * k, k, a / k + 1, 0);
  }

  /** In a phase the answer is positive and leads exactly to the earliest wake point still to come. */
  lemma LeadsToNextPoint(p: State, now: int)
    requires UpToDate(p, now)
    ensures SecondsUntilNextCheckpoint(p, now).Some?
    ensures var s := SecondsUntilNextCheckpoint(p, now).value;
            && s > 0 && WakePoint(p, now + s)
            && (forall t :: now < t && WakePoint(p, t) ==> now + s <= t)
  {
    hide UINT32, TruncDiv, OnGrid;
    SmallCast(p.phaseEnd - now);
    if p.config.checkpointMinutes > 0 {
      var k := p.config.checkpointMinutes * 60;
      TruncNonNegative(now - p.phaseStart, k);
      NextBoundary(p.phaseStart, now, k);
      SmallCast(p.phaseStart + ((now - p.phaseStart) / k + 1) * k - now);
    }
  }

  lemma NextBoundary(start: int, now: int, k: int)
    requires start <= now && k > 0
    ensures var next := start + ((now - start) / k + 1) * k;
            && next > now && OnGrid(start, k, next)
            && (forall t :: now < t && OnGrid(start, k, t) ==> next <= t)
  {
    NextMultipleAfter(now - start, k);
    var next := start + ((now - start) / k + 1) * k;
    forall t | now < t && OnGrid(start, k, t) ensures next <= t {
      NextMultiple(now - start, k, t - start);
    }
  }

  lemma SmallCast(a: int)
    ensures 0 <= a < UINT32 ==> a % UINT32 == a
  {
  }

  /** The next sleep: the calendar's answer, cut to the session's. */
  function NextWakeInterval(s: Settings, e: EventInfo, p: State, now: int, base: int): int {
    var sleep := Decide(s, e, now, base).sleepSeconds;
    match SecondsUntilNextCheckpoint(p, now)
    case None => sleep
    case Some(c) => if c < sleep then c else sleep
  }

  /** Asking how long to sleep fires nothing: it works on a scratch copy of the event. */
  method NextWakeIntervalSeconds(s: Settings, event: NextEvent, p: State, now: int, base: int) returns (sleep: int)
    ensures sleep == NextWakeInterval(s, event.info, p, now, base)
    ensures unchanged(event)
  {
    var scratch := new NextEvent(event.info);
    var _, calendar := ComputeWakeDecision(s, scratch, now, base);
    sleep := calendar;
    var pomodoro := SecondsUntilNextCheckpoint(p, now);
    if pomodoro.Some? && pomodoro.value < sleep {
      sleep := pomodoro.value;
    }
  }

  /** One sleep never skips a wake point, and it passes an armed target by at most 29 seconds. */
  lemma OneSleepSkipsNothing(s: Settings, e: EventInfo, p: State, now: int, base: int)
    requires UpToDate(p, now) && base >= MIN_SLEEP_SECONDS
    ensures var wake := now + NextWakeInterval(s, e, p, now, base);
            && wake > now
            && (forall t :: now < t < wake ==> !WakePoint(p, t))
            && (StartArmed(s, e) && now < StartTarget(s, e) ==> wake <= StartTarget(s, e) + 29)
            && (EndArmed(s, e) && now < e.end ==> wake <= e.end + 29)
  {
    hide Decide, SecondsUntilNextCheckpoint, WakePoint, StartArmed, EndArmed, StartTarget;
    LeadsToNextPoint(p, now);
    TargetHardlyPassed(s, e, now, base);
  }

  // ----- Runs of timer wakes -----

  /**
   * One timer wake: it advances the session, decides on the reminders once the sync pass is over,
   * and asks how long to sleep once a frame is drawn.
   */
  datatype Waking = Waking(at: int, decides: int, sleeps: int)

  /** What the device holds after a wake: the stamped event and the session caught up. */
  datatype Held = Held(event: EventInfo, session: State)

  function AfterWake(s: Settings, h: Held, wake: Waking, base: int): Held {
    Held(Decide(s, h.event, wake.decides, base).event, Advanced(h.session, wake.at))
  }

  function Interval(s: Settings, h: Held, wake: Waking, base: int): int {
    NextWakeInterval(s, h.event, h.session, wake.sleeps, base)
  }

  /** Each wake is armed at the one before, for after its sleep; h is held after the first. */
  predicate SleepRun(s: Settings, base: int, h: Held, wakes: seq<Waking>)
    decreases |wakes|
  {
    && |wakes| > 0 && wakes[0].at <= wakes[0].decides <= wakes[0].sleeps
    && (|wakes| > 1 ==>
          && TimerArmed(Interval(s, h, wakes[0], base))
          && wakes[1].at == wakes[0].sleeps + Interval(s, h, wakes[0], base)
          && SleepRun(s, base, AfterWake(s, h, wakes[1], base), wakes[1..]))
  }

  /** A sleep of 0 seconds sets no timer: only the button ends it. */
  predicate TimerArmed(seconds: int) {
    seconds > 0
  }

  // The session is where the clock says, in the middle of a phase.
  ghost predicate InPhase(t0: int, c: Config, p: State, now: int) {
    Fits(c) && OnTrack(t0, c, p) && p.phaseStart <= now < p.phaseEnd
  }

  lemma PhaseIsUpToDate(t0: int, c: Config, p: State, now: int)
    requires InPhase(t0, c, p, now)
    ensures UpToDate(p, now) && p.phaseEnd - p.phaseStart < UINT32 && c.sessions > 0 && t0 <= p.phaseStart
    ensures forall t :: p.phaseStart <= t < p.phaseEnd ==> t >= t0 && ClosedForm(t0, c, t) == p
  {
    var spot :| ValidSpot(c, spot) && p == SpotState(t0, c, spot);
    SpotLasts(t0, c, spot);
    SpotShort(t0, c, spot);
    hide SpotState, ClosedForm;
    forall t | p.phaseStart <= t < p.phaseEnd ensures t >= t0 && ClosedForm(t0, c, t) == p {
      SpotHolds(t0, c, spot, t);
    }
    SpotHolds(t0, c, spot, p.phaseStart);
  }

  lemma SpotShort(t0: int, c: Config, spot: Spot)
    requires Fits(c) && ValidSpot(c, spot)
    ensures SpotState(t0, c, spot).phaseEnd - SpotState(t0, c, spot).phaseStart < UINT32
  {
    hide CycleLen;
  }

  lemma NextPhase(t0: int, c: Config, p: State, now: int, wake: int)
    requires InPhase(t0, c, p, now) && now <= wake <= p.phaseEnd
    ensures InPhase(t0, c, Advanced(p, wake), wake)
  {
    hide OnTrack, Advanced, ClosedForm;
    ShortJumpFits(t0, c, p, wake);
    AdvanceFollowsClosedForm(t0, c, p, wake);
  }

  /** A phase ends at t, by the clock alone. */
  predicate PhaseEndsAt(t0: int, c: Config, t: int)
    requires c.sessions > 0 && t0 < t
  {
    t == ClosedForm(t0, c, t - 1).phaseEnd
  }

  /**
   * The device sleeps for good, with no timer, if and only if the session was over when it asked; for
   * a session that the wake found in the middle of a phase, if and only if a phase ended while it was awake.
   */
  lemma NoTimerExactlyWhenPhaseEnded(t0: int, c: Config, s: Settings, base: int, h: Held, wake: Waking)
    requires InPhase(t0, c, h.session, wake.at) && wake.at <= wake.sleeps && base >= MIN_SLEEP_SECONDS
    ensures t0 <= wake.at && c.sessions > 0
    ensures !TimerArmed(Interval(s, h, wake, base)) <==>
            exists t :: wake.at < t <= wake.sleeps && PhaseEndsAt(t0, c, t)
  {
    hide ClosedForm, InPhase, NextWakeInterval, UINT32;
    var p := h.session;
    PhaseIsUpToDate(t0, c, p, wake.at);
    PhaseBounds(t0, c, p, wake.at);
    SleepIsZero(s, h.event, p, wake.sleeps, base);
    if wake.sleeps >= p.phaseEnd {
      assert PhaseEndsAt(t0, c, p.phaseEnd);
    } else {
      forall t | wake.at < t <= wake.sleeps ensures !PhaseEndsAt(t0, c, t) {
        assert ClosedForm(t0, c, t - 1) == p;
      }
    }
  }

  /** The interval is 0 exactly when the session is over. */
  lemma SleepIsZero(s: Settings, e: EventInfo, p: State, now: int, base: int)
    requires base >= MIN_SLEEP_SECONDS && p.phaseStart <= now && p.phaseEnd - p.phaseStart < UINT32
    ensures NextWakeInterval(s, e, p, now, base) >= 0
    ensures NextWakeInterval(s, e, p, now, base) == 0 <==> !p.phase.Idle? && now >= p.phaseEnd
  {
    hide Decide, StartArmed, EndArmed, StartTarget;
    TargetHardlyPassed(s, e, now, base);
    if !p.phase.Idle? {
      DueOnlyWhenPhaseIsOver(p, now);
    }
  }

  /**
   * Over any run of timer wakes, from phase to phase: every checkpoint and every phase end that the
   * clock alone determines finds the device awake, if it does not wake it.
   */
  lemma {:induction false} EveryPointIsWoken(t0: int, c: Config, s: Settings, base: int, h: Held, wakes: seq<Waking>, t: int)
    requires SleepRun(s, base, h, wakes) && InPhase(t0, c, h.session, wakes[0].at) && base >= MIN_SLEEP_SECONDS
    requires wakes[0].at < t <= wakes[|wakes| - 1].sleeps
    requires t > t0 && c.sessions > 0 && WakePoint(ClosedForm(t0, c, t - 1), t)
    ensures exists i :: 0 <= i < |wakes| && wakes[i].at <= t <= wakes[i].sleeps
    decreases |wakes|
  {
    hide NextWakeInterval, WakePoint, InPhase, AfterWake, ClosedForm;
    if t > wakes[0].sleeps {
      var p, now, at := h.session, wakes[0].sleeps, wakes[1].at;
      PhaseIsUpToDate(t0, c, p, wakes[0].at);
      PhaseBounds(t0, c, p, wakes[0].at);
      SleepIsZero(s, h.event, p, now, base);
      OneSleepSkipsNothing(s, h.event, p, now, base);
      EndIsPoint(p);
      var i := 1;
      if t <= at {
        assert ClosedForm(t0, c, t - 1) == p;
        assert t == at;
      } else {
        InPhaseLater(t0, c, p, wakes[0].at, now);
        NextPhase(t0, c, p, now, at);
        SessionAfter(s, h, wakes[1], base);
        EveryPointIsWoken(t0, c, s, base, AfterWake(s, h, wakes[1], base), wakes[1..], t);
        i :| 0 <= i < |wakes| - 1 && wakes[1..][i].at <= t <= wakes[1..][i].sleeps;
        i := i + 1;
      }
      assert wakes[i].at <= t <= wakes[i].sleeps;
    }
  }

  lemma InPhaseLater(t0: int, c: Config, p: State, at: int, now: int)
    requires InPhase(t0, c, p, at) && at <= now < p.phaseEnd
    ensures InPhase(t0, c, p, now)
  {
    hide OnTrack;
  }

  lemma EndIsPoint(p: State)
    ensures WakePoint(p, p.phaseEnd)
  {
  }

  lemma PhaseBounds(t0: int, c: Config, p: State, now: int)
    requires InPhase(t0, c, p, now)
    ensures p.phaseStart <= now < p.phaseEnd
  {
  }

  lemma SessionAfter(s: Settings, h: Held, wake: Waking, base: int)
    ensures AfterWake(s, h, wake, base).session == Advanced(h.session, wake.at)
    ensures AfterWake(s, h, wake, base).event == Decide(s, h.event, wake.decides, base).event
  {
  }

  // A sleep never goes past the calendar's own.
  lemma NoLaterThanCalendar(s: Settings, e: EventInfo, p: State, now: int, base: int)
    ensures NextWakeInterval(s, e, p, now, base) <= Decide(s, e, now, base).sleepSeconds
  {
    hide Decide, SecondsUntilNextCheckpoint;
  }

  // What has not fired stays armed, for the same target.
  lemma StaysArmed(s: Settings, e: EventInfo, now: int, base: int)
    ensures var e' := Decide(s, e, now, base).event;
            && StartTarget(s, e') == StartTarget(s, e) && e'.end == e.end
            && (StartArmed(s, e) && now < StartTarget(s, e) ==> StartArmed(s, e'))
            && (EndArmed(s, e) && now < e.end ==> EndArmed(s, e'))
            && (StartArmed(s, e') ==> StartArmed(s, e)) && (EndArmed(s, e') ==> EndArmed(s, e))
  {
    hide Until;
  }

  function DecisionTimes(wakes: seq<Waking>): (times: seq<int>)
    ensures |times| == |wakes|
  {
    if wakes == [] then [] else [wakes[0].decides] + DecisionTimes(wakes[1..])
  }

  // The alerts from one wake on.
  lemma AlertsFrom(s: Settings, e: EventInfo, wakes: seq<Waking>, base: int)
    requires wakes != []
    ensures var d := Decide(s, e, wakes[0].decides, base);
            Alerts(s, e, DecisionTimes(wakes), base) == [d.alert] + Alerts(s, d.event, DecisionTimes(wakes[1..]), base)
  {
    hide Decide;
    assert DecisionTimes(wakes)[1..] == DecisionTimes(wakes[1..]);
  }

  /** The calendar's target has passed unnoticed when the wake asks for its sleep. */
  predicate PassedBy(target: int, wake: Waking) {
    wake.decides < target <= wake.sleeps
  }

  /** A target that has passed by the time the sleep is asked for does not shorten it. */
  lemma PassedTargetWaits(s: Settings, h: Held, wake: Waking, base: int)
    requires base >= MIN_SLEEP_SECONDS
    requires StartArmed(s, h.event) ==> wake.sleeps >= StartTarget(s, h.event)
    requires EndArmed(s, h.event) ==> wake.sleeps >= h.event.end
    ensures h.session.phase.Idle? ==> Interval(s, h, wake, base) == base
  {
  }

  /**
   * Over any run of timer wakes, an armed reminder before the start is shown by the first wake that
   * decides at or after its target. That wake comes at most 29 seconds after the target, unless
   * the wake before it was passed by; without a session or another reminder, if and only if it was not.
   */
  lemma {:induction false} StartReminderIsShown(s: Settings, base: int, h: Held, wakes: seq<Waking>) returns (i: nat)
    requires SleepRun(s, base, h, wakes) && StartArmed(s, h.event) && base >= MIN_SLEEP_SECONDS
    requires wakes[0].decides < StartTarget(s, h.event) <= wakes[|wakes| - 1].decides
    ensures 0 < i < |wakes| && wakes[i - 1].decides < StartTarget(s, h.event) <= wakes[i].decides
    ensures Alerts(s, h.event, DecisionTimes(wakes[1..]), base)[i - 1] == BeforeStart
    ensures wakes[i].at <= wakes[i - 1].sleeps + base
    ensures !PassedBy(StartTarget(s, h.event), wakes[i - 1]) ==> wakes[i].at <= StartTarget(s, h.event) + 29
    ensures h.session.phase.Idle? && !EndArmed(s, h.event) ==>
              (wakes[i].at <= StartTarget(s, h.event) + 29 <==> !PassedBy(StartTarget(s, h.event), wakes[i - 1]))
    decreases |wakes|
  {
    hide NextWakeInterval, Decide, StartTarget, StartArmed, EndArmed, AfterWake, Alerts;
    var wake := wakes[1];
    TargetHardlyPassed(s, h.event, wakes[0].sleeps, base);
    NoLaterThanCalendar(s, h.event, h.session, wakes[0].sleeps, base);
    DueIsShown(s, h.event, wake.decides, base);
    AlertsFrom(s, h.event, wakes[1..], base);
    if wake.decides >= StartTarget(s, h.event) {
      i := 1;
      if PassedBy(StartTarget(s, h.event), wakes[0]) && !EndArmed(s, h.event) {
        PassedTargetWaits(s, h, wakes[0], base);
      }
    } else {
      StaysArmed(s, h.event, wake.decides, base);
      SessionAfter(s, h, wake, base);
      StaysIdle(h.session, wake.at);
      assert wakes[1..][1..] == wakes[2..];
      var j := StartReminderIsShown(s, base, AfterWake(s, h, wake, base), wakes[1..]);
      i := j + 1;
    }
  }

  lemma StaysIdle(p: State, now: int)
    ensures p.phase.Idle? ==> Advanced(p, now) == p
  {
  }

  /** And one at the end is shown by the first such wake, or the other one in its place. */
  lemma {:induction false} EndReminderIsShown(s: Settings, base: int, h: Held, wakes: seq<Waking>) returns (i: nat)
    requires SleepRun(s, base, h, wakes) && EndArmed(s, h.event) && base >= MIN_SLEEP_SECONDS
    requires wakes[0].decides < h.event.end <= wakes[|wakes| - 1].decides
    ensures 0 < i < |wakes| && wakes[i - 1].decides < h.event.end <= wakes[i].decides
    ensures Alerts(s, h.event, DecisionTimes(wakes[1..]), base)[i - 1] != NoAlert
    ensures wakes[i].at <= wakes[i - 1].sleeps + base
    ensures !PassedBy(h.event.end, wakes[i - 1]) ==> wakes[i].at <= h.event.end + 29
    ensures h.session.phase.Idle? && !StartArmed(s, h.event) ==>
              (wakes[i].at <= h.event.end + 29 <==> !PassedBy(h.event.end, wakes[i - 1]))
    decreases |wakes|
  {
    hide NextWakeInterval, Decide, StartTarget, StartArmed, EndArmed, AfterWake, Alerts;
    var wake := wakes[1];
    TargetHardlyPassed(s, h.event, wakes[0].sleeps, base);
    NoLaterThanCalendar(s, h.event, h.session, wakes[0].sleeps, base);
    DueIsShown(s, h.event, wake.decides, base);
    AlertsFrom(s, h.event, wakes[1..], base);
    if wake.decides >= h.event.end {
      i := 1;
      if PassedBy(h.event.end, wakes[0]) && !StartArmed(s, h.event) {
        PassedTargetWaits(s, h, wakes[0], base);
      }
    } else {
      StaysArmed(s, h.event, wake.decides, base);
      SessionAfter(s, h, wake, base);
      StaysIdle(h.session, wake.at);
      assert wakes[1..][1..] == wakes[2..];
      var j := EndReminderIsShown(s, base, AfterWake(s, h, wake, base), wakes[1..]);
      i := j + 1;
    }
  }

  // ----- What a wake finds -----

  /**
   * A session's query answers 0, which is what makes a timer wake draw the session's screen, exactly
   * when the phase is over: never at a checkpoint inside it.
   */
  lemma DueOnlyWhenPhaseIsOver(p: State, now: int)
    requires !p.phase.Idle? && p.phaseStart <= now && p.phaseEnd - p.phaseStart < UINT32
    ensures SecondsUntilNextCheckpoint(p, now) == Some(0) <==> now >= p.phaseEnd
  {
    if now < p.phaseEnd {
      hide SecondsUntilNextCheckpoint, WakePoint;
      LeadsToNextPoint(p, now);
    }
  }

  /** A stopped session never moves, asks for no wake and leaves the sleep to the calendar. */
  lemma {:induction false} StoppedNeverWakes(p: State, times: seq<int>, s: Settings, e: EventInfo, now: int, base: int)
    ensures AdvanceAll(Stopped(p), times) == Stopped(p)
    ensures SecondsUntilNextCheckpoint(Stopped(p), now) == None
    ensures NextWakeInterval(s, e, Stopped(p), now, base) == Decide(s, e, now, base).sleepSeconds
    decreases |times|
  {
    hide Decide;
    if times != [] {
      StoppedNeverWakes(p, times[1..], s, e, now, base);
    }
  }
}
