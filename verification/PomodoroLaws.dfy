/**
 * The session's closed form in the minutes the user configured, with and without a long break.
 */
module PomodoroLaws {
  import opened CArith
  import opened Pomodoro

  /** A phase of 0 minutes lasts one. */
  function AtLeastOne(minutes: nat): nat {
    if minutes == 0 then 1 else minutes
  }

  /** The phase runs for so many minutes from its start. */
  predicate Runs(p: State, phase: Phase, start: int, minutes: nat) {
    p.phase == phase && p.phaseStart == start && p.phaseEnd == start + 60 * minutes
  }

  /**
   * The state at time t of a session started at t0: work and break in turns, with a long break after
   * the last of `sessions` work phases, or without one when sessions is 0.
   */
  predicate IsStateAt(t0: int, c: Config, t: int, p: State)
    requires t >= t0
  {
    var w, b, l := AtLeastOne(c.workMinutes), AtLeastOne(c.breakMinutes), AtLeastOne(c.longBreakMinutes);
    var elapsed := t - t0;
    var upToLongBreak := 60 * (c.sessions * w + (c.sessions - 1) * b);
    var into := if c.sessions == 0 then elapsed else Remainder(elapsed, upToLongBreak + 60 * l);
    p.config == c &&
    if c.sessions > 0 && into >= upToLongBreak then
      Runs(p, LongBreak, t - into + upToLongBreak, l) && p.completed == c.sessions
    else
      var pairs, rest := Whole(into, 60 * (w + b)), Remainder(into, 60 * (w + b));
      if rest < 60 * w then Runs(p, Work, t - rest, w) && p.completed == pairs % 65536
      else Runs(p, Break, t - rest + 60 * w, b) && p.completed == (pairs + 1) % 65536
  }

  function Remainder(a: int, b: int): int {
    if b == 0 then 0 else a % b
  }

  function Whole(a: int, b: int): int {
    if b == 0 then 0 else a / b
  }

  // ----- With a long break -----

  lemma DurationIs(minutes: nat)
    ensures DurationSeconds(minutes) == 60 * AtLeastOne(minutes)
  {
  }

  lemma LengthsInMinutes(c: Config)
    requires c.sessions > 0
    ensures var w, b, l := AtLeastOne(c.workMinutes), AtLeastOne(c.breakMinutes), AtLeastOne(c.longBreakMinutes);
            && WorkLen(c) == 60 * w && PairLen(c) == 60 * (w + b) && LongLen(c) == 60 * l
            && CycleLen(c) - LongLen(c) == 60 * (c.sessions * w + (c.sessions - 1) * b)
            && CycleLen(c) == 60 * (c.sessions * w + (c.sessions - 1) * b) + 60 * l
  {
    DurationIs(c.workMinutes);
    DurationIs(c.breakMinutes);
    DurationIs(c.longBreakMinutes);
    hide DurationSeconds, AtLeastOne;
    Sixty(c.sessions, AtLeastOne(c.workMinutes));
    Sixty(c.sessions - 1, AtLeastOne(c.breakMinutes));
  }

  lemma Sixty(n: int, m: int)
    ensures n * (60 * m) == 60 * (n * m)
  {
  }

  // The closed form in seconds, when q cycles and i pairs of phases have passed.
  lemma LongBreakInSeconds(t0: int, c: Config, q: nat, into: nat)
    requires c.sessions > 0 && CycleLen(c) - LongLen(c) <= into < CycleLen(c)
    ensures var t := t0 + q * CycleLen(c) + into;
            && t >= t0
            && ClosedForm(t0, c, t) == State(LongBreak, t - into + (CycleLen(c) - LongLen(c)), t - into + CycleLen(c), c.sessions, c)
  {
    hide CycleLen, LongLen, ClosedForm;
    InLongBreak(t0, c, q, into - (CycleLen(c) - LongLen(c)));
  }

  lemma WorkInSeconds(t0: int, c: Config, q: nat, i: nat, rest: nat)
    requires c.sessions > 0 && rest < WorkLen(c) && i < c.sessions
    ensures var t := t0 + q * CycleLen(c) + i * PairLen(c) + rest;
            && t >= t0
            && ClosedForm(t0, c, t) == State(Work, t - rest, t - rest + WorkLen(c), i, c)
  {
    hide CycleLen, PairLen, WorkLen, ClosedForm;
    InWork(t0, c, q, i, rest);
  }

  lemma BreakInSeconds(t0: int, c: Config, q: nat, i: nat, rest: nat)
    requires c.sessions > 0 && WorkLen(c) <= rest < PairLen(c) && i + 1 < c.sessions
    ensures var t := t0 + q * CycleLen(c) + i * PairLen(c) + rest;
            && t >= t0
            && ClosedForm(t0, c, t) == State(Break, t - rest + WorkLen(c), t - rest + PairLen(c), i + 1, c)
  {
    hide CycleLen, PairLen, WorkLen, ClosedForm;
    InBreak(t0, c, q, i, rest);
  }

  lemma QuotientAndRest(a: nat, b: int) returns (q: nat, r: nat)
    requires b > 0
    ensures a == q * b + r && r < b && q == a / b && r == a % b
  {
    NonNegativeQuotient(a, b);
    q, r := a / b, a % b;
    assert a == b * (a / b) + a % b;
  }

  lemma PairLonger(c: Config)
    ensures PairLen(c) > WorkLen(c)
  {
  }

  /** The closed form is that state. */
  lemma ClosedFormInMinutes(t0: int, c: Config, t: int)
    requires Fits(c) && c.sessions > 0 && t >= t0
    ensures IsStateAt(t0, c, t, ClosedForm(t0, c, t))
  {
    LengthsInMinutes(c);
    CyclePositive(c);
    WorkLenPositive(c);
    PairLonger(c);
    hide CycleLen, WorkLen, PairLen, LongLen, AtLeastOne, ClosedForm;
    var q, into := QuotientAndRest(t - t0, CycleLen(c));
    if into >= CycleLen(c) - LongLen(c) {
      LongBreakInSeconds(t0, c, q, into);
    } else {
      var i, rest := QuotientAndRest(into, PairLen(c));
      PairsBelowSessions(i, rest, PairLen(c), c.sessions, WorkLen(c));
      if rest < WorkLen(c) {
        WorkInSeconds(t0, c, q, i, rest);
      } else {
        BreakInSeconds(t0, c, q, i, rest);
      }
    }
  }

  lemma PairsBelowSessions(i: nat, rest: nat, pair: int, sessions: nat, work: int)
    requires pair > work > 0 && sessions > 0 && i * pair + rest < (sessions - 1) * pair + work
    ensures i < sessions
    ensures rest >= work ==> i + 1 < sessions
  {
    if i >= sessions {
      MulMono(sessions, i, pair);
      Distribute(sessions, pair, 0);
    }
  }

  // ----- Without one -----

  function PlainWork(t0: int, c: Config, n: nat): State {
    State(Work, t0 + n * PairLen(c), t0 + n * PairLen(c) + WorkLen(c), n % 65536, c)
  }

  function PlainBreak(t0: int, c: Config, n: nat): State {
    State(Break, t0 + n * PairLen(c) + WorkLen(c), t0 + n * PairLen(c) + PairLen(c), (n + 1) % 65536, c)
  }

  ghost predicate OnPlain(t0: int, c: Config, p: State) {
    exists n: nat :: p == PlainWork(t0, c, n) || p == PlainBreak(t0, c, n)
  }

  lemma PlainSteps(t0: int, c: Config, n: nat)
    requires c.sessions == 0
    ensures TransitionOnce(PlainWork(t0, c, n)) == PlainBreak(t0, c, n)
    ensures TransitionOnce(PlainBreak(t0, c, n)) == PlainWork(t0, c, n + 1)
  {
    hide DurationSeconds;
    Distribute(n + 1, PairLen(c), 0);
  }

  lemma StepStaysPlain(t0: int, c: Config, p: State)
    requires c.sessions == 0 && OnPlain(t0, c, p)
    ensures OnPlain(t0, c, TransitionOnce(p)) && !p.phase.Idle? && TransitionOnce(p).phaseStart == p.phaseEnd
  {
    var n: nat :| p == PlainWork(t0, c, n) || p == PlainBreak(t0, c, n);
    PlainSteps(t0, c, n);
    hide PairLen, WorkLen, TransitionOnce;
    assert PlainBreak(t0, c, n) == PlainBreak(t0, c, n) && PlainWork(t0, c, n + 1) == PlainWork(t0, c, n + 1);
    Distribute(n + 1, PairLen(c), 0);
  }

  lemma {:induction false} CatchUpStaysPlain(t0: int, c: Config, p: State, now: int, most: nat)
    requires c.sessions == 0 && OnPlain(t0, c, p) && p.phaseStart <= now
    ensures OnPlain(t0, c, CatchUp(p, now, most)) && CatchUp(p, now, most).phaseStart <= now
    decreases most
  {
    if most > 0 && now >= p.phaseEnd {
      StepStaysPlain(t0, c, p);
      hide OnPlain, TransitionOnce;
      CatchUpStaysPlain(t0, c, TransitionOnce(p), now, most - 1);
    }
  }

  lemma PlainIsStateAt(t0: int, c: Config, p: State, t: int)
    requires c.sessions == 0 && OnPlain(t0, c, p) && p.phaseStart <= t < p.phaseEnd
    ensures t >= t0 && IsStateAt(t0, c, t, p)
  {
    var n: nat :| p == PlainWork(t0, c, n) || p == PlainBreak(t0, c, n);
    DurationIs(c.workMinutes);
    DurationIs(c.breakMinutes);
    hide DurationSeconds;
    var pair := PairLen(c);
    MulMono(0, n, pair);
    var rest := t - t0 - n * pair;
    DivUnique(t - t0, pair, n, rest);
  }

  lemma {:induction false} PlainWakes(t0: int, c: Config, p: State, at: int, times: seq<int>)
    requires c.sessions == 0 && OnPlain(t0, c, p) && UnderCap(p, times) && p.phaseStart <= at < p.phaseEnd
    ensures var r := AdvanceAll(p, times);
            OnPlain(t0, c, r) && r.phaseStart <= Latest(at, times) < r.phaseEnd
    decreases |times|
  {
    if times != [] {
      StepStaysPlain(t0, c, p);
      var t, next := times[0], Advanced(p, times[0]);
      if t >= p.phaseEnd {
        CatchUpStaysPlain(t0, c, p, t, MAX_TRANSITIONS);
      } else {
        assert next == p;
      }
      hide OnPlain, Advanced, TransitionOnce;
      PlainWakes(t0, c, next, if t > at then t else at, times[1..]);
    }
  }

  // ----- Any session -----

  /**
   * A started session, advanced at any times under the cap, is in the state that the minutes since
   * its start determine.
   */
  lemma SessionInMinutes(t0: int, c: Config, times: seq<int>)
    requires Fits(c) && UnderCap(Started(t0, c), times)
    ensures IsStateAt(t0, c, Latest(t0, times), AdvanceAll(Started(t0, c), times))
  {
    if c.sessions > 0 {
      SessionFollowsClock(t0, c, times);
      ClosedFormInMinutes(t0, c, Latest(t0, times));
    } else {
      assert Started(t0, c) == PlainWork(t0, c, 0);
      assert Started(t0, c).phaseStart <= t0 < Started(t0, c).phaseEnd;
      hide Started, IsStateAt;
      PlainWakes(t0, c, Started(t0, c), t0, times);
      PlainIsStateAt(t0, c, AdvanceAll(Started(t0, c), times), Latest(t0, times));
    }
  }

  // ----- One catch-up, whatever the session -----

  function Transitions(p: State, n: nat): State
    decreases n
  {
    if n == 0 then p else Transitions(TransitionOnce(p), n - 1)
  }

  lemma {:induction false} CatchUpIs(p: State, now: int, most: nat) returns (n: nat)
    ensures n <= most && CatchUp(p, now, most) == Transitions(p, n)
    ensures forall k: nat :: k < n ==> now >= Transitions(p, k).phaseEnd
    ensures n < most ==> now < Transitions(p, n).phaseEnd
    decreases most
  {
    hide TransitionOnce;
    n := 0;
    if most > 0 && now >= p.phaseEnd {
      var m := CatchUpIs(TransitionOnce(p), now, most - 1);
      n := m + 1;
      forall k: nat | k < n ensures now >= Transitions(p, k).phaseEnd {
        assert k > 0 ==> Transitions(p, k) == Transitions(TransitionOnce(p), k - 1);
      }
    }
  }

  /** A catch-up goes on to the first phase that is not over, but for 1000 transitions at most. */
  lemma AdvanceIs(p: State, now: int) returns (n: nat)
    requires !p.phase.Idle?
    ensures n <= 1000 && Advanced(p, now) == Transitions(p, n)
    ensures forall k: nat :: k < n ==> now >= Transitions(p, k).phaseEnd
    ensures n < 1000 ==> now < Transitions(p, n).phaseEnd
  {
    n := CatchUpIs(p, now, MAX_TRANSITIONS);
  }
}
