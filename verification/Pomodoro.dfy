/**
 * The Pomodoro session: a phase machine that catches up after a long sleep, against the
 * phase that the elapsed time alone determines.
 */
module Pomodoro {
  import opened CArith

  const MAX_TRANSITIONS: nat := 1000

  datatype Phase = Idle | Work | Break | LongBreak

  /** All fields are 16-bit; 0 sessions means that there is no long break. */
  datatype Config = Config(workMinutes: nat, breakMinutes: nat, longBreakMinutes: nat, sessions: nat, checkpointMinutes: nat)

  datatype State = State(phase: Phase, phaseStart: int, phaseEnd: int, completed: nat, config: Config)

  predicate Fits(c: Config) {
    c.workMinutes < 65536 && c.breakMinutes < 65536 && c.longBreakMinutes < 65536
    && c.sessions < 65536 && c.checkpointMinutes < 65536
  }

  /** A phase lasts at least a minute. */
  function DurationSeconds(minutes: nat): (s: int)
    ensures s >= 60
  {
    (if minutes > 0 then minutes else 1) * 60
  }

  function Started(now: int, c: Config): State {
    State(Work, now, now + DurationSeconds(c.workMinutes), 0, c)
  }

  function Stopped(s: State): State {
    s.(phase := Idle, phaseStart := 0, phaseEnd := 0)
  }

  /** The next phase; the count of work phases is a 16-bit counter. */
  function TransitionOnce(s: State): State {
    match s.phase
    case Idle => s
    case Work =>
      var done := (s.completed + 1) % 65536;
      if s.config.sessions > 0 && done % s.config.sessions == 0 then
        State(LongBreak, s.phaseEnd, s.phaseEnd + DurationSeconds(s.config.longBreakMinutes), done, s.config)
      else
        State(Break, s.phaseEnd, s.phaseEnd + DurationSeconds(s.config.breakMinutes), done, s.config)
    case Break =>
      State(Work, s.phaseEnd, s.phaseEnd + DurationSeconds(s.config.workMinutes), s.completed, s.config)
    case LongBreak =>
      State(Work, s.phaseEnd, s.phaseEnd + DurationSeconds(s.config.workMinutes), 0, s.config)
  }

  /** At most so many transitions, while the phase is over. */
  function CatchUp(s: State, now: int, most: nat): State
    decreases most
  {
    if most == 0 || now < s.phaseEnd then s else CatchUp(TransitionOnce(s), now, most - 1)
  }

  function Advanced(s: State, now: int): State {
    if s.phase.Idle? then s else CatchUp(s, now, MAX_TRANSITIONS)
  }

  class PomodoroSession {
    var state: State

    constructor ()
      ensures state.phase.Idle?
    {
      state := State(Idle, 0, 0, 0, Config(25, 5, 15, 4, 5));
    }

    method Start(now: int, config: Config)
      modifies this
      ensures state == Started(now, config)
      ensures state == State(Work, now, now + 60 * (if config.workMinutes == 0 then 1 else config.workMinutes), 0, config)
    {
      state := State(Work, now, now + DurationSeconds(config.workMinutes), 0, config);
    }

    method Stop()
      modifies this
      ensures state == Stopped(old(state))
    {
      state := state.(phase := Idle, phaseStart := 0, phaseEnd := 0);
    }

    /** Catches up phase by phase; says whether any phase ended. */
    method Advance(now: int) returns (transitioned: bool)
      modifies this
      ensures state == Advanced(old(state), now)
      ensures transitioned <==> !old(state).phase.Idle? && now >= old(state).phaseEnd
    {
      if state.phase == Idle {
        return false;
      }
      transitioned := false;
      var i := 0;
      while i < MAX_TRANSITIONS && now >= state.phaseEnd
        invariant 0 <= i <= MAX_TRANSITIONS
        invariant CatchUp(state, now, MAX_TRANSITIONS - i) == CatchUp(old(state), now, MAX_TRANSITIONS)
        invariant transitioned <==> i > 0
        invariant i > 0 ==> now >= old(state).phaseEnd
        invariant i == 0 ==> state == old(state)
      {
        state := TransitionOnce(state);
        transitioned := true;
        i := i + 1;
      }
    }
  }

  // ----- The phase that the elapsed time determines -----

  function WorkLen(c: Config): int {
    DurationSeconds(c.workMinutes)
  }

  function PairLen(c: Config): int {
    DurationSeconds(c.workMinutes) + DurationSeconds(c.breakMinutes)
  }

  function LongLen(c: Config): int {
    DurationSeconds(c.longBreakMinutes)
  }

  /** A cycle: all work phases with the short breaks between them, then the long break. */
  function CycleLen(c: Config): int
    requires c.sessions > 0
  {
    c.sessions * DurationSeconds(c.workMinutes) + (c.sessions - 1) * DurationSeconds(c.breakMinutes)
      + DurationSeconds(c.longBreakMinutes)
  }

  function WorkState(c: Config, base: int, i: nat): State {
    State(Work, base + i * PairLen(c), base + i * PairLen(c) + WorkLen(c), i, c)
  }

  function BreakState(c: Config, base: int, i: nat): State {
    State(Break, base + i * PairLen(c) + WorkLen(c), base + i * PairLen(c) + PairLen(c), i + 1, c)
  }

  function LongState(c: Config, base: int): State
    requires c.sessions > 0
  {
    State(LongBreak, base + CycleLen(c) - LongLen(c), base + CycleLen(c), c.sessions, c)
  }

  lemma CyclePositive(c: Config)
    requires c.sessions > 0
    ensures CycleLen(c) - LongLen(c) == (c.sessions - 1) * PairLen(c) + WorkLen(c)
    ensures CycleLen(c) > LongLen(c) > 0
  {
    hide DurationSeconds;
    var n, w, b := c.sessions, DurationSeconds(c.workMinutes), DurationSeconds(c.breakMinutes);
    Distribute(n, w, b);
    MulMono(0, n - 1, w);
    MulMono(0, n - 1, b);
  }

  /** The state at time t of a session started at t0, from the elapsed time alone. */
  function ClosedForm(t0: int, c: Config, t: int): State
    requires c.sessions > 0 && t >= t0
  {
    CyclePositive(c);
    var e := t - t0;
    var base := t0 + Quotient(e, CycleLen(c)) * CycleLen(c);
    var r := e % CycleLen(c);
    if r >= CycleLen(c) - LongLen(c) then LongState(c, base)
    else
      var i := Quotient(r, PairLen(c));
      if r % PairLen(c) < WorkLen(c) then WorkState(c, base, i) else BreakState(c, base, i)
  }

  // Where the three kinds of phases lie in a cycle.
  lemma InWork(t0: int, c: Config, q: nat, i: nat, o: nat)
    requires c.sessions > 0 && i < c.sessions && o < WorkLen(c)
    ensures var t := t0 + q * CycleLen(c) + i * PairLen(c) + o;
            t >= t0 && ClosedForm(t0, c, t) == WorkState(c, t0 + q * CycleLen(c), i)
  {
    hide WorkState, BreakState, LongState, CycleLen, DurationSeconds;
    CyclePositive(c);
    MulMono(i, c.sessions - 1, PairLen(c));
    MulMono(0, i, PairLen(c));
    MulMono(0, q, CycleLen(c));
    DivUnique(q * CycleLen(c) + i * PairLen(c) + o, CycleLen(c), q, i * PairLen(c) + o);
    DivUnique(i * PairLen(c) + o, PairLen(c), i, o);
  }

  lemma InBreak(t0: int, c: Config, q: nat, i: nat, o: nat)
    requires c.sessions > 0 && i < c.sessions - 1 && WorkLen(c) <= o < PairLen(c)
    ensures var t := t0 + q * CycleLen(c) + i * PairLen(c) + o;
            t >= t0 && ClosedForm(t0, c, t) == BreakState(c, t0 + q * CycleLen(c), i)
  {
    hide WorkState, BreakState, LongState, CycleLen, DurationSeconds;
    CyclePositive(c);
    MulMono(i + 1, c.sessions - 1, PairLen(c));
    MulMono(0, i, PairLen(c));
    MulMono(0, q, CycleLen(c));
    assert (i + 1) * PairLen(c) == i * PairLen(c) + PairLen(c);
    DivUnique(q * CycleLen(c) + i * PairLen(c) + o, CycleLen(c), q, i * PairLen(c) + o);
    DivUnique(i * PairLen(c) + o, PairLen(c), i, o);
  }

  lemma InLongBreak(t0: int, c: Config, q: nat, o: nat)
    requires c.sessions > 0 && o < LongLen(c)
    ensures var t := t0 + q * CycleLen(c) + CycleLen(c) - LongLen(c) + o;
            t >= t0 && ClosedForm(t0, c, t) == LongState(c, t0 + q * CycleLen(c))
  {
    hide WorkState, BreakState, LongState, CycleLen, DurationSeconds;
    CyclePositive(c);
    MulMono(0, q, CycleLen(c));
    DivUnique(q * CycleLen(c) + CycleLen(c) - LongLen(c) + o, CycleLen(c), q, CycleLen(c) - LongLen(c) + o);
  }

  // ----- The machine follows the closed form -----

  /** The state of a session started at t0, as of the start of its phase. */
  datatype Spot = WorkSpot(q: nat, i: nat) | BreakSpot(q: nat, i: nat) | LongSpot(q: nat)

  predicate ValidSpot(c: Config, spot: Spot) {
    match spot
    case WorkSpot(q, i) => i < c.sessions
    case BreakSpot(q, i) => i + 1 < c.sessions
    case LongSpot(q) => c.sessions > 0
  }

  function SpotState(t0: int, c: Config, spot: Spot): State
    requires ValidSpot(c, spot)
  {
    var base := t0 + spot.q * CycleLen(c);
    match spot
    case WorkSpot(_, i) => WorkState(c, base, i)
    case BreakSpot(_, i) => BreakState(c, base, i)
    case LongSpot(_) => LongState(c, base)
  }

  function NextSpot(c: Config, spot: Spot): Spot {
    match spot
    case WorkSpot(q, i) => if i + 1 < c.sessions then BreakSpot(q, i) else LongSpot(q)
    case BreakSpot(q, i) => WorkSpot(q, i + 1)
    case LongSpot(q) => WorkSpot(q + 1, 0)
  }

  lemma SpotSteps(t0: int, c: Config, spot: Spot)
    requires Fits(c) && ValidSpot(c, spot)
    ensures ValidSpot(c, NextSpot(c, spot))
    ensures TransitionOnce(SpotState(t0, c, spot)) == SpotState(t0, c, NextSpot(c, spot))
  {
    match spot
    case WorkSpot(q, i) => WorkEnds(t0 + q * CycleLen(c), c, i);
    case BreakSpot(q, i) => BreakEnds(t0 + q * CycleLen(c), c, i);
    case LongSpot(q) => LongBreakEnds(t0, c, q);
  }

  lemma WorkEnds(base: int, c: Config, i: nat)
    requires Fits(c) && i < c.sessions
    ensures TransitionOnce(WorkState(c, base, i))
         == if i + 1 < c.sessions then BreakState(c, base, i) else LongState(c, base)
  {
    hide CycleLen, DurationSeconds;
    CyclePositive(c);
    SessionsMod(i + 1, c.sessions);
    if i + 1 == c.sessions {
      assert i * PairLen(c) == (c.sessions - 1) * PairLen(c);
    }
  }

  lemma BreakEnds(base: int, c: Config, i: nat)
    ensures TransitionOnce(BreakState(c, base, i)) == WorkState(c, base, i + 1)
  {
    hide DurationSeconds;
    Distribute(i + 1, PairLen(c), 0);
  }

  lemma LongBreakEnds(t0: int, c: Config, q: nat)
    requires c.sessions > 0
    ensures TransitionOnce(LongState(c, t0 + q * CycleLen(c))) == WorkState(c, t0 + (q + 1) * CycleLen(c), 0)
  {
    hide CycleLen, DurationSeconds;
    Distribute(q + 1, CycleLen(c), 0);
  }

  lemma SessionsMod(k: nat, n: nat)
    requires 0 < k <= n < 65536
    ensures k % 65536 == k
    ensures k % n == 0 <==> k == n
  {
    if k < n {
      DivUnique(k, n, 0, k);
    } else {
      DivUnique(k, n, 1, 0);
    }
  }

  // Within a phase the closed form does not move.
  lemma SpotHolds(t0: int, c: Config, spot: Spot, t: int)
    requires ValidSpot(c, spot)
    requires SpotState(t0, c, spot).phaseStart <= t < SpotState(t0, c, spot).phaseEnd
    ensures t >= t0 && ClosedForm(t0, c, t) == SpotState(t0, c, spot)
  {
    hide ClosedForm, CycleLen, WorkLen, PairLen, LongLen;
    var cycles, into := spot.q * CycleLen(c), t - SpotState(t0, c, spot).phaseStart;
    match spot
    case WorkSpot(q, i) =>
      assert t == t0 + cycles + i * PairLen(c) + into;
      InWork(t0, c, q, i, into);
    case BreakSpot(q, i) =>
      assert t == t0 + cycles + i * PairLen(c) + (WorkLen(c) + into);
      WorkLenPositive(c);
      InBreak(t0, c, q, i, WorkLen(c) + into);
    case LongSpot(q) =>
      assert t == t0 + cycles + CycleLen(c) - LongLen(c) + into;
      InLongBreak(t0, c, q, into);
  }

  lemma WorkLenPositive(c: Config)
    ensures WorkLen(c) > 0
  {
  }

  lemma SpotLasts(t0: int, c: Config, spot: Spot)
    requires ValidSpot(c, spot)
    ensures SpotState(t0, c, spot).phaseEnd >= SpotState(t0, c, spot).phaseStart + 60
    ensures SpotState(t0, c, spot).phaseStart >= t0
    ensures !SpotState(t0, c, spot).phase.Idle?
  {
    hide CycleLen;
    CyclePositive(c);
    MulMono(0, spot.q, CycleLen(c));
    if !spot.LongSpot? {
      MulMono(0, spot.i, PairLen(c));
    }
  }

  /** The session is where the time at the start of its phase puts it. */
  ghost predicate OnTrack(t0: int, c: Config, s: State) {
    exists spot :: ValidSpot(c, spot) && s == SpotState(t0, c, spot)
  }

  /** A fresh session is on track. */
  lemma StartIsOnTrack(t0: int, c: Config)
    requires c.sessions > 0
    ensures OnTrack(t0, c, Started(t0, c))
  {
    assert SpotState(t0, c, WorkSpot(0, 0)) == Started(t0, c);
  }

  lemma {:induction false} CatchUpOnTrack(t0: int, c: Config, s: State, now: int, most: nat)
    requires Fits(c) && OnTrack(t0, c, s) && s.phaseStart <= now
    ensures var r := CatchUp(s, now, most);
            && OnTrack(t0, c, r) && r.phaseStart <= now
            && (now < r.phaseEnd || r.phaseEnd >= s.phaseEnd + 60 * most)
    decreases most
  {
    if most > 0 && now >= s.phaseEnd {
      var spot :| ValidSpot(c, spot) && s == SpotState(t0, c, spot);
      SpotSteps(t0, c, spot);
      SpotLasts(t0, c, spot);
      SpotLasts(t0, c, NextSpot(c, spot));
      assert TransitionOnce(s).phaseStart == s.phaseEnd by { NextStartsAtEnd(s); }
      hide TransitionOnce, SpotState, NextSpot, ValidSpot;
      CatchUpOnTrack(t0, c, TransitionOnce(s), now, most - 1);
    }
  }

  lemma NextStartsAtEnd(s: State)
    ensures !s.phase.Idle? ==> TransitionOnce(s).phaseStart == s.phaseEnd
  {
    hide DurationSeconds;
  }

  /** Advancing under the cap puts the session exactly where the elapsed time says. */
  lemma AdvanceFollowsClosedForm(t0: int, c: Config, s: State, now: int)
    requires Fits(c) && OnTrack(t0, c, s) && s.phaseStart <= now
    requires now < Advanced(s, now).phaseEnd
    ensures c.sessions > 0 && now >= t0 && Advanced(s, now) == ClosedForm(t0, c, now)
    ensures OnTrack(t0, c, Advanced(s, now)) && Advanced(s, now).phaseStart <= now
  {
    var spot0 :| ValidSpot(c, spot0) && s == SpotState(t0, c, spot0);
    SpotLasts(t0, c, spot0);
    CatchUpOnTrack(t0, c, s, now, MAX_TRANSITIONS);
    hide ClosedForm, SpotState, CatchUp;
    var spot :| ValidSpot(c, spot) && Advanced(s, now) == SpotState(t0, c, spot);
    SpotHolds(t0, c, spot, now);
  }

  /** A jump of less than 60000 s past the end of the phase stays under the cap. */
  lemma ShortJumpFits(t0: int, c: Config, s: State, now: int)
    requires Fits(c) && OnTrack(t0, c, s)
    requires s.phaseStart <= now < s.phaseEnd + 60000
    ensures Advanced(s, now).phaseStart <= now < Advanced(s, now).phaseEnd
  {
    var spot0 :| ValidSpot(c, spot0) && s == SpotState(t0, c, spot0);
    SpotLasts(t0, c, spot0);
    CatchUpOnTrack(t0, c, s, now, MAX_TRANSITIONS);
  }

  lemma {:induction false} CatchUpInTwo(s: State, t1: int, t2: int, most: nat, more: nat)
    requires t1 <= t2 && most <= more && t2 < CatchUp(s, t2, most).phaseEnd
    ensures CatchUp(CatchUp(s, t1, most), t2, more) == CatchUp(s, t2, most)
    decreases most
  {
    hide TransitionOnce;
    if most > 0 && t1 >= s.phaseEnd {
      CatchUpInTwo(TransitionOnce(s), t1, t2, most - 1, more);
    } else {
      SpareTransitions(s, t2, most, more);
    }
  }

  lemma {:induction false} SpareTransitions(s: State, now: int, most: nat, more: nat)
    requires most <= more && now < CatchUp(s, now, most).phaseEnd
    ensures CatchUp(s, now, more) == CatchUp(s, now, most)
    decreases most
  {
    hide TransitionOnce;
    if most > 0 && now >= s.phaseEnd {
      SpareTransitions(TransitionOnce(s), now, most - 1, more - 1);
    }
  }

  lemma CatchUpStaysActive(s: State, now: int, most: nat)
    requires !s.phase.Idle?
    ensures !CatchUp(s, now, most).phase.Idle?
    decreases most
  {
    hide DurationSeconds;
    if most > 0 && now >= s.phaseEnd {
      CatchUpStaysActive(TransitionOnce(s), now, most - 1);
    }
  }

  /** Advancing in two goes is advancing in one, for any session the single call catches up. */
  lemma AdvanceTwice(s: State, t1: int, t2: int)
    requires t1 <= t2 && t2 < Advanced(s, t2).phaseEnd
    ensures Advanced(Advanced(s, t1), t2) == Advanced(s, t2)
  {
    hide CatchUp;
    if !s.phase.Idle? {
      CatchUpStaysActive(s, t1, MAX_TRANSITIONS);
      CatchUpInTwo(s, t1, t2, MAX_TRANSITIONS, MAX_TRANSITIONS);
    }
  }

  // ----- Any sequence of wakes -----

  function AdvanceAll(s: State, times: seq<int>): State
    decreases |times|
  {
    if times == [] then s else AdvanceAll(Advanced(s, times[0]), times[1..])
  }

  /** No call hits the cap: every one leaves a phase that is not over. */
  predicate UnderCap(s: State, times: seq<int>)
    decreases |times|
  {
    times == [] || (times[0] < Advanced(s, times[0]).phaseEnd && UnderCap(Advanced(s, times[0]), times[1..]))
  }

  function Latest(t: int, times: seq<int>): (r: int)
    ensures r >= t
    decreases |times|
  {
    if times == [] then t else Latest(if times[0] > t then times[0] else t, times[1..])
  }

  lemma {:induction false} WakesFollow(t0: int, c: Config, s: State, at: int, times: seq<int>)
    requires Fits(c) && c.sessions > 0 && OnTrack(t0, c, s) && UnderCap(s, times)
    requires t0 <= at && s.phaseStart <= at < s.phaseEnd && s == ClosedForm(t0, c, at)
    ensures AdvanceAll(s, times) == ClosedForm(t0, c, Latest(at, times))
    decreases |times|
  {
    if times != [] {
      var t := times[0];
      hide ClosedForm, OnTrack;
      if t < s.phaseStart {
        assert Advanced(s, t) == s;
        hide Advanced;
        WakesFollow(t0, c, s, at, times[1..]);
      } else {
        var t' := if t > at then t else at;
        LaterIsLatest(t0, c, s, at, t);
        hide Advanced;
        WakesFollow(t0, c, Advanced(s, t), t', times[1..]);
      }
    }
  }

  lemma LaterIsLatest(t0: int, c: Config, s: State, at: int, t: int)
    requires Fits(c) && c.sessions > 0 && OnTrack(t0, c, s)
    requires t0 <= at && s.phaseStart <= at < s.phaseEnd && s == ClosedForm(t0, c, at)
    requires s.phaseStart <= t < Advanced(s, t).phaseEnd
    ensures var t', r := if t > at then t else at, Advanced(s, t);
            OnTrack(t0, c, r) && r.phaseStart <= t' < r.phaseEnd && r == ClosedForm(t0, c, t')
  {
    hide ClosedForm, OnTrack;
    AdvanceFollowsClosedForm(t0, c, s, t);
    if t <= at {
      assert Advanced(s, t) == s;
    }
  }

  /** After any sequence of wakes under the cap the session is where the latest of them says. */
  lemma SessionFollowsClock(t0: int, c: Config, times: seq<int>)
    requires Fits(c) && c.sessions > 0 && UnderCap(Started(t0, c), times)
    ensures AdvanceAll(Started(t0, c), times) == ClosedForm(t0, c, Latest(t0, times))
  {
    StartIsOnTrack(t0, c);
    SpotHolds(t0, c, WorkSpot(0, 0), t0);
    assert SpotState(t0, c, WorkSpot(0, 0)) == Started(t0, c);
    hide OnTrack, ClosedForm, UnderCap;
    WakesFollow(t0, c, Started(t0, c), t0, times);
  }
}
