/**
 * A job that gets a new row: when at most one device approval reaches lp for it, and how two do.
 */
module PiReuse {
  import opened Options
  import opened PiRows
  import opened PiMachine
  import opened PiProgress

  // An approval no call is for is delivered and goes to lp.
  lemma DeliveredToLp(env: ApprovalId -> Envelope, w: World, l: WorkerId, b: ApprovalId)
    returns (steps: seq<Step>, w': World)
    requires l !in w.workers && b !in w.rows.approvals && env(b).action.Print? && CanClaim(w.rows, env(b).job, b)
    ensures w' == Run(env, w, steps) && forall i :: 0 <= i < |steps| ==> !steps[i].Insert?
    ensures env(b).job in w'.rows.jobs && b in w'.printed && b in w'.reached
    ensures w.reached <= w'.reached && w.printed <= w'.printed
  {
    hide Run, AdvanceWorker;
    var w1 := Perform(env, w, Deliver(l, b));
    assert w1 == w.(workers := w.workers[l := Worker(b, Recording)]);
    hide Perform;
    var rest;
    rest, w' := ToLp(env, w1, l);
    steps := [Deliver(l, b)] + rest;
    FirstStep(env, w, Deliver(l, b), rest);
  }

  lemma {:induction false} NoInsertIsQuiet(env: ApprovalId -> Envelope, w: World, steps: seq<Step>, job: JobId)
    requires forall i :: 0 <= i < |steps| ==> !steps[i].Insert?
    ensures AllQuiet(env, w, steps, job)
    decreases |steps|
  {
    hide Perform, Busy;
    if steps != [] {
      NoInsertIsQuiet(env, Perform(env, w, steps[0]), steps[1..], job);
    }
  }

  /** A new row under a call past the old claim: that call and a fresh approval both reach lp for it. */
  lemma NewRowPrintsTwice(env: ApprovalId -> Envelope, w: World, k: WorkerId, l: WorkerId, b: ApprovalId)
    returns (steps: seq<Step>)
    requires Busy(env, w, k, env(b).job) && env(b).job !in w.rows.jobs
    requires l !in w.workers && Guarded(env(b)) && b !in w.rows.approvals && b != w.workers[k].id
    ensures forall i :: 0 <= i < |steps| ==> !steps[i].Insert?
    ensures var w' := Run(env, Perform(env, w, Insert(env(b).job)), steps);
            && env(b).job in w'.rows.jobs && w.workers[k].id in w'.printed && b in w'.printed
            && !OneReaches(env, w', env(b).job)
  {
    var job := env(b).job;
    var w1 := Perform(env, w, Insert(job));
    assert w1.rows.jobs[job].finalizing == None && w1.workers == w.workers && w1.rows.approvals == w.rows.approvals;
    assert Ready(env, w1, k);
    hide Run, Perform, Guarded, Ready;
    var first, w2 := ToLp(env, w1, k);
    var second, w3 := DeliveredToLp(env, w2, l, b);
    RunConcat(env, w1, first, second);
    steps := first + second;
  }

  /** From any world with a call past the claim: purge, insert, and two approvals reach lp for one living row. */
  lemma ReusedJobPrintsTwice(env: ApprovalId -> Envelope, w: World, k: WorkerId, l: WorkerId, b: ApprovalId)
    returns (steps: seq<Step>)
    requires Busy(env, w, k, env(b).job)
    requires l !in w.workers && Guarded(env(b)) && b !in w.rows.approvals && b != w.workers[k].id
    ensures var w' := Run(env, w, [Purge(env(b).job), Insert(env(b).job)] + steps);
            && env(b).job in w'.rows.jobs && w.workers[k].id in w'.printed && b in w'.printed
            && !OneReaches(env, w', env(b).job)
  {
    var job := env(b).job;
    var w1 := Perform(env, w, Purge(job));
    assert w1.workers == w.workers && w1.rows.approvals == w.rows.approvals && job !in w1.rows.jobs;
    hide Perform, Guarded;
    steps := NewRowPrintsTwice(env, w1, k, l, b);
    RunConcat(env, w, [Purge(job), Insert(job)], steps);
    TwoSteps(env, w, Purge(job), Insert(job));
  }

  lemma TwoSteps(env: ApprovalId -> Envelope, w: World, s: Step, t: Step)
    ensures Run(env, w, [s, t]) == Perform(env, Perform(env, w, s), t)
  {
    hide Perform;
    assert [s, t][1..] == [t] && [t][1..] == [];
    assert Run(env, Perform(env, w, s), [t]) == Run(env, Perform(env, Perform(env, w, s), t), []);
  }

  /** Whatever happens after the new row, as long as later ones are quiet, one approval at most reaches lp for it. */
  ghost predicate Harmless(env: ApprovalId -> Envelope, w: World, job: JobId) {
    forall steps :: AllQuiet(env, Perform(env, w, Insert(job)), steps, job)
                    ==> OneReaches(env, Run(env, Perform(env, w, Insert(job)), steps), job)
  }

  /**
   * In every world reached by quiet steps, a new row for a job is harmless if and only if no
   * device print of that job is past its claim. The approval b is one that has not come in yet.
   */
  lemma HarmlessExactlyWhenQuiet(env: ApprovalId -> Envelope, before: seq<Step>, b: ApprovalId, l: WorkerId)
    requires AllQuiet(env, EMPTY_WORLD, before, env(b).job)
    requires var w := Run(env, EMPTY_WORLD, before);
             && env(b).job !in w.rows.jobs && l !in w.workers
             && Guarded(env(b)) && b !in w.rows.approvals && forall k :: k in w.workers ==> w.workers[k].id != b
    ensures var w := Run(env, EMPTY_WORLD, before);
            Harmless(env, w, env(b).job) <==> forall k :: k in w.workers ==> !Busy(env, w, k, env(b).job)
  {
    var w, job := Run(env, EMPTY_WORLD, before), env(b).job;
    RunKeepsRowInv(env, EMPTY_WORLD, before, job);
    hide Run, Perform, Busy, RowsFollow, Guarded;
    if k :| k in w.workers && Busy(env, w, k, job) {
      var steps := NewRowPrintsTwice(env, w, k, l, b);
      NoInsertIsQuiet(env, Perform(env, w, Insert(job)), steps, job);
    } else {
      StepKeepsRowInv(env, w, Insert(job), job);
      forall steps | AllQuiet(env, Perform(env, w, Insert(job)), steps, job)
        ensures OneReaches(env, Run(env, Perform(env, w, Insert(job)), steps), job)
      {
        RunKeepsRowInv(env, Perform(env, w, Insert(job)), steps, job);
      }
    }
  }
}
