/**
 * Applying approvals on the Pi as a step machine: any number of deliveries, relayed or
 * direct or replayed, interleave between transactions, and each may die at any point.
 */
module PiMachine {
  import opened Options
  import opened PiRows

  type WorkerId = nat

  /** Where one call of apply_approval or of _finish stands. */
  datatype Pc =
    | Recording                                       // about to record the approval
    | Checking                                        // found it recorded, about to read its row
    | Claiming                                        // about to claim the job
    | Losing                                          // claim failed, about to read the winner
    | Yielding                                        // about to mark the approval superseded
    | Looking                                         // about to read the job for the side effect
    | Submitting(deleted: bool)                       // about to call lp
    | Updating(status: JobStatus, detail: Detail)     // about to set the job's status
    | Settling(detail: Detail)                        // about to mark the approval applied
    | Done
    | Raised                                          // left by an exception

  datatype Worker = Worker(id: ApprovalId, pc: Pc)

  /**
   * The durable rows, the calls in progress, and their histories. Over the whole run: the
   * approvals whose documents lp accepted, the crashes right after that, the approvals that won
   * a claim, and how often a row was inserted for each job. Since their job's row was last
   * inserted: the approvals that reached lp, whatever it answered, and the one that claimed the job.
   */
  datatype World = World(
    rows: Rows, workers: map<WorkerId, Worker>, printed: multiset<ApprovalId>, lost: multiset<ApprovalId>,
    won: set<ApprovalId>, inserted: multiset<JobId>, reached: set<ApprovalId>, owner: map<JobId, ApprovalId>)

  datatype Step =
    | Deliver(k: WorkerId, id: ApprovalId)            // apply_approval is called
    | Replay(k: WorkerId, id: ApprovalId)             // startup finishes an unapplied row
    | Advance(k: WorkerId, lpOk: bool)                // a call takes its next transaction or lp call
    | Die(k: WorkerId)                                // the call's process dies
    | Insert(job: JobId)
    | Purge(job: JobId)
    | Touch(job: JobId, status: JobStatus)            // admin requeue and the like

  const EMPTY_WORLD := World(Rows(map[], map[]), map[], multiset{}, multiset{}, {}, multiset{}, {}, map[])

  /** The first stage of _finish. */
  function FinishPc(e: Envelope): Pc {
    if Guarded(e) then Claiming else Looking
  }

  /** lp has accepted the document, but the approval is not yet marked. */
  predicate Submitted(pc: Pc) {
    (pc.Updating? && pc.detail == Printed) || (pc.Settling? && pc.detail == Printed)
  }

  predicate Finishing(pc: Pc) {
    pc.Claiming? || pc.Losing? || pc.Yielding? || pc.Looking? || pc.Submitting? || pc.Updating? || pc.Settling?
  }

  predicate Active(pc: Pc) {
    pc.Recording? || pc.Checking? || Finishing(pc)
  }

  function Move(w: World, k: WorkerId, pc: Pc): World
    requires k in w.workers
  {
    w.(workers := w.workers[k := w.workers[k].(pc := pc)])
  }

  /** What the side effect does next once it has read the job row. */
  function AfterLooking(r: Rows, e: Envelope): Pc {
    if e.job !in r.jobs then Settling(if e.action.Print? then PrintFailed else Failed)
    else match e.action
      case Print => Submitting(r.jobs[e.job].status.Deleted?)
      case Keep => Updating(Kept, KeptIt)
      case Delete => Updating(Deleted, Archived)
  }

  /** The next transaction, read or lp call of worker k. */
  function AdvanceWorker(env: ApprovalId -> Envelope, w: World, k: WorkerId, lpOk: bool): World
    requires k in w.workers
  {
    var id := w.workers[k].id;
    var e := env(id);
    match w.workers[k].pc
    case Recording =>
      Move(w.(rows := Record(w.rows, id, e)), k, if id in w.rows.approvals then Checking else FinishPc(e))
    case Checking => Move(w, k, if Unapplied(w.rows, id) then FinishPc(e) else Done)
    case Claiming =>
      if CanClaim(w.rows, e.job, id)
      then Move(w.(rows := Claim(w.rows, e.job, id), owner := w.owner[e.job := id], won := w.won + {id}), k, Looking)
      else Move(w, k, Losing)
    case Losing => Move(w, k, if e.job in w.rows.jobs then Yielding else Raised)
    case Yielding => Move(w.(rows := MarkApplied(w.rows, id, Superseded)), k, Done)
    case Looking => Move(w, k, AfterLooking(w.rows, e))
    case Submitting(deleted) =>
      var w' := w.(reached := w.reached + {id});
      if !lpOk then Move(w', k, Settling(PrintFailed))
      else Move(w'.(printed := w.printed + multiset{id}), k, if deleted then Settling(Printed) else Updating(Kept, Printed))
    case Updating(status, detail) => Move(w.(rows := SetStatus(w.rows, e.job, status)), k, Settling(detail))
    case Settling(detail) => Move(w.(rows := MarkApplied(w.rows, id, detail)), k, Done)
    case Done => w
    case Raised => w
  }

  /** A row for a job that has none: the histories of the job's row start again. */
  function NewRow(env: ApprovalId -> Envelope, w: World, job: JobId): World {
    w.(rows := AddJob(w.rows, job), inserted := w.inserted + multiset{job}, owner := w.owner - {job},
       reached := set id | id in w.reached && env(id).job != job)
  }

  function Perform(env: ApprovalId -> Envelope, w: World, step: Step): World {
    match step
    case Deliver(k, id) =>
      if k in w.workers then w else w.(workers := w.workers[k := Worker(id, Recording)])
    case Replay(k, id) =>
      if k in w.workers || !Unapplied(w.rows, id) then w
      else w.(workers := w.workers[k := Worker(id, FinishPc(w.rows.approvals[id].env))])
    case Advance(k, lpOk) => if k in w.workers then AdvanceWorker(env, w, k, lpOk) else w
    case Die(k) =>
      if k !in w.workers then w
      else
        var gap := if Submitted(w.workers[k].pc) then multiset{w.workers[k].id} else multiset{};
        w.(workers := w.workers - {k}, lost := w.lost + gap)
    case Insert(job) => if job in w.rows.jobs then w else NewRow(env, w, job)
    case Purge(job) => w.(rows := PurgeJob(w.rows, job))
    case Touch(job, status) => w.(rows := SetStatus(w.rows, job, status))
  }

  /** A run from the given world: one step after the other. */
  function Run(env: ApprovalId -> Envelope, w: World, steps: seq<Step>): World
    decreases |steps|
  {
    if steps == [] then w else Run(env, Perform(env, w, steps[0]), steps[1..])
  }

  lemma {:induction false} RunConcat(env: ApprovalId -> Envelope, w: World, a: seq<Step>, b: seq<Step>)
    ensures Run(env, w, a + b) == Run(env, Run(env, w, a), b)
    decreases |a|
  {
    hide Perform;
    if a == [] {
      assert a + b == b;
    } else {
      assert (a + b)[0] == a[0] && (a + b)[1..] == a[1..] + b;
      RunConcat(env, Perform(env, w, a[0]), a[1..], b);
    }
  }

  // A run continued by one step.
  lemma Then(env: ApprovalId -> Envelope, w0: World, steps: seq<Step>, step: Step) returns (more: seq<Step>, w: World)
    ensures more == steps + [step]
    ensures w == Run(env, w0, more) && w == Perform(env, Run(env, w0, steps), step)
  {
    more := steps + [step];
    RunConcat(env, w0, steps, [step]);
    hide Perform;
    assert [step][1..] == [];
    w := Run(env, w0, more);
  }

  lemma FirstStep(env: ApprovalId -> Envelope, w: World, step: Step, rest: seq<Step>)
    ensures Run(env, w, [step] + rest) == Run(env, Perform(env, w, step), rest)
  {
    hide Perform;
    assert ([step] + rest)[1..] == rest;
  }

  lemma NoSteps(env: ApprovalId -> Envelope, w: World)
    ensures Run(env, w, []) == w
  {
  }

  // ----- What one step of a call does -----

  // To the calls and the histories.
  lemma MoveWorkers(env: ApprovalId -> Envelope, w: World, k: WorkerId, lpOk: bool)
    requires k in w.workers
    ensures var w' := AdvanceWorker(env, w, k, lpOk);
            var id, pc := w.workers[k].id, w.workers[k].pc;
            && w'.workers.Keys == w.workers.Keys
            && w'.workers == w.workers[k := Worker(id, w'.workers[k].pc)]
            && w'.lost == w.lost && w'.inserted == w.inserted
            && w'.printed == (if pc.Submitting? && lpOk then w.printed + multiset{id} else w.printed)
            && w'.reached == (if pc.Submitting? then w.reached + {id} else w.reached)
  {
    hide Record, Claim, MarkApplied, SetStatus, AfterLooking;
  }

  // To the approval rows.
  lemma MoveRows(env: ApprovalId -> Envelope, w: World, k: WorkerId, lpOk: bool)
    requires k in w.workers
    ensures var id, pc := w.workers[k].id, w.workers[k].pc;
            AdvanceWorker(env, w, k, lpOk).rows.approvals ==
            match pc
            case Recording => Record(w.rows, id, env(id)).approvals
            case Yielding => MarkApplied(w.rows, id, Superseded).approvals
            case Settling(detail) => MarkApplied(w.rows, id, detail).approvals
            case _ => w.rows.approvals
  {
    hide Record, MarkApplied, AfterLooking;
  }

  // To the claims: only the claiming step changes any.
  lemma MoveClaims(env: ApprovalId -> Envelope, w: World, k: WorkerId, lpOk: bool)
    requires k in w.workers
    ensures var w' := AdvanceWorker(env, w, k, lpOk);
            var id, pc := w.workers[k].id, w.workers[k].pc;
            var job := env(id).job;
            if pc.Claiming? && CanClaim(w.rows, job, id)
            then w'.owner == w.owner[job := id] && w'.won == w.won + {id} && w'.rows.jobs == Claim(w.rows, job, id).jobs
            else w'.owner == w.owner && w'.won == w.won
                 && w'.rows.jobs == if pc.Updating? then SetStatus(w.rows, job, pc.status).jobs else w.rows.jobs
  {
    hide Claim, SetStatus, AfterLooking, CanClaim;
    MarkingKeepsJobs(w.rows, w.workers[k].id);
    RecordKeepsJobs(w.rows, w.workers[k].id, env(w.workers[k].id));
    hide Record, MarkApplied;
  }

  lemma MarkingKeepsJobs(r: Rows, id: ApprovalId)
    ensures forall detail :: MarkApplied(r, id, detail).jobs == r.jobs
  {
  }

  lemma RecordKeepsJobs(r: Rows, id: ApprovalId, e: Envelope)
    ensures Record(r, id, e).jobs == r.jobs
  {
  }

  // ----- At most one approval of a job's row reaches lp -----

  /** On the way to lp, the claim behind it. */
  predicate PastClaim(pc: Pc) {
    pc.Looking? || pc.Submitting?
  }

  /** A call that needs the job's claim and believes that it has it. */
  predicate Busy(env: ApprovalId -> Envelope, w: World, k: WorkerId, job: JobId) {
    k in w.workers && Guarded(env(w.workers[k].id)) && env(w.workers[k].id).job == job && PastClaim(w.workers[k].pc)
  }

  /** The step does not insert a new row for the job under a call past the claim of the old one. */
  predicate Quiet(env: ApprovalId -> Envelope, w: World, step: Step, job: JobId) {
    step == Insert(job) && job !in w.rows.jobs ==> forall k :: k in w.workers ==> !Busy(env, w, k, job)
  }

  ghost predicate AllQuiet(env: ApprovalId -> Envelope, w: World, steps: seq<Step>, job: JobId)
    decreases |steps|
  {
    steps == [] || (Quiet(env, w, steps[0], job) && AllQuiet(env, Perform(env, w, steps[0]), steps[1..], job))
  }

  predicate Owns(w: World, id: ApprovalId, job: JobId) {
    job in w.owner && w.owner[job] == id
  }

  ghost predicate RowOwned(w: World, job: JobId) {
    job in w.rows.jobs ==> w.rows.jobs[job].finalizing == (if job in w.owner then Some(w.owner[job]) else None)
  }

  ghost predicate BusyOwn(env: ApprovalId -> Envelope, w: World, job: JobId) {
    forall k :: k in w.workers && Busy(env, w, k, job) ==> Owns(w, w.workers[k].id, job)
  }

  ghost predicate ReachedOwn(env: ApprovalId -> Envelope, w: World, job: JobId) {
    forall id :: id in w.reached && Guarded(env(id)) && env(id).job == job ==> Owns(w, id, job)
  }

  /** Whoever is past the claim of the job's row, or has been at lp, is the row's one claimer. */
  ghost predicate RowInv(env: ApprovalId -> Envelope, w: World, job: JobId) {
    RowOwned(w, job) && BusyOwn(env, w, job) && ReachedOwn(env, w, job)
  }

  // A replayed row carries its own envelope.
  ghost predicate RowsFollow(env: ApprovalId -> Envelope, w: World) {
    forall id :: id in w.rows.approvals ==> w.rows.approvals[id].env == env(id)
  }

  lemma AdvanceKeepsRowOwned(env: ApprovalId -> Envelope, w: World, k: WorkerId, lpOk: bool, job: JobId)
    requires RowOwned(w, job) && k in w.workers
    ensures RowOwned(AdvanceWorker(env, w, k, lpOk), job)
    ensures forall id :: Owns(w, id, job) ==> Owns(AdvanceWorker(env, w, k, lpOk), id, job)
  {
    MoveClaims(env, w, k, lpOk);
    hide AdvanceWorker;
  }

  lemma AdvanceKeepsRowInv(env: ApprovalId -> Envelope, w: World, k: WorkerId, lpOk: bool, job: JobId)
    requires RowInv(env, w, job) && k in w.workers
    ensures RowInv(env, AdvanceWorker(env, w, k, lpOk), job)
  {
    MoveWorkers(env, w, k, lpOk);
    MoveClaims(env, w, k, lpOk);
    AdvanceKeepsRowOwned(env, w, k, lpOk, job);
    MoveBusy(env, w, k, lpOk);
    hide AdvanceWorker, Guarded, RowOwned;
  }

  // Nobody gets past a claim but by claiming.
  lemma MoveBusy(env: ApprovalId -> Envelope, w: World, k: WorkerId, lpOk: bool)
    requires k in w.workers
    ensures var pc, pc' := w.workers[k].pc, AdvanceWorker(env, w, k, lpOk).workers[k].pc;
            Guarded(env(w.workers[k].id)) && PastClaim(pc')
            ==> PastClaim(pc) || (pc.Claiming? && CanClaim(w.rows, env(w.workers[k].id).job, w.workers[k].id))
  {
    hide Record, Claim, MarkApplied, SetStatus, AfterLooking, CanClaim;
  }

  lemma FinishPcUnclaimed()
    ensures forall e :: Guarded(e) ==> FinishPc(e).Claiming?
  {
  }

  // Starting and losing calls: nobody new gets past a claim.
  lemma CallStepKeepsRowInv(env: ApprovalId -> Envelope, w: World, step: Step, job: JobId)
    requires RowInv(env, w, job) && RowsFollow(env, w) && (step.Deliver? || step.Replay? || step.Die?)
    ensures RowInv(env, Perform(env, w, step), job)
  {
    hide Guarded, FinishPc, AdvanceWorker, Submitted;
    FinishPcUnclaimed();
  }

  lemma JobStepKeepsRowInv(env: ApprovalId -> Envelope, w: World, step: Step, job: JobId)
    requires RowInv(env, w, job) && Quiet(env, w, step, job) && (step.Insert? || step.Purge? || step.Touch?)
    ensures RowInv(env, Perform(env, w, step), job)
  {
    hide Guarded, AdvanceWorker;
    assert Perform(env, w, step).workers == w.workers;
  }

  lemma StepKeepsRowsFollow(env: ApprovalId -> Envelope, w: World, step: Step)
    requires RowsFollow(env, w)
    ensures RowsFollow(env, Perform(env, w, step))
  {
    if step.Advance? && step.k in w.workers {
      MoveRows(env, w, step.k, step.lpOk);
    }
    hide AdvanceWorker, FinishPc, Submitted;
  }

  /** Every quiet step keeps the claim invariant of a job's row. */
  lemma StepKeepsRowInv(env: ApprovalId -> Envelope, w: World, step: Step, job: JobId)
    requires RowInv(env, w, job) && RowsFollow(env, w) && Quiet(env, w, step, job)
    ensures RowInv(env, Perform(env, w, step), job) && RowsFollow(env, Perform(env, w, step))
  {
    hide RowInv, RowsFollow, AdvanceWorker, Quiet;
    StepKeepsRowsFollow(env, w, step);
    if step.Advance? {
      if step.k in w.workers {
        AdvanceKeepsRowInv(env, w, step.k, step.lpOk, job);
      }
    } else if step.Deliver? || step.Replay? || step.Die? {
      CallStepKeepsRowInv(env, w, step, job);
    } else {
      JobStepKeepsRowInv(env, w, step, job);
    }
  }

  lemma {:induction false} RunKeepsRowInv(env: ApprovalId -> Envelope, w: World, steps: seq<Step>, job: JobId)
    requires RowInv(env, w, job) && RowsFollow(env, w) && AllQuiet(env, w, steps, job)
    ensures RowInv(env, Run(env, w, steps), job) && RowsFollow(env, Run(env, w, steps))
    decreases |steps|
  {
    hide RowInv, RowsFollow, Perform, Quiet;
    if steps != [] {
      StepKeepsRowInv(env, w, steps[0], job);
      RunKeepsRowInv(env, Perform(env, w, steps[0]), steps[1..], job);
    }
  }

  /** No two device approvals have reached lp for the job's row. */
  ghost predicate OneReaches(env: ApprovalId -> Envelope, w: World, job: JobId) {
    forall a, b :: a in w.reached && b in w.reached && Guarded(env(a)) && Guarded(env(b))
                   && env(a).job == job && env(b).job == job
                   ==> a == b
  }

  /**
   * For every row a job ever gets, at most one device approval reaches lp, whatever lp answers,
   * over all interleavings, retries, crashes, replays and purges. New rows must be quiet.
   */
  lemma OnlyOneReaches(env: ApprovalId -> Envelope, steps: seq<Step>, job: JobId)
    requires AllQuiet(env, EMPTY_WORLD, steps, job)
    ensures OneReaches(env, Run(env, EMPTY_WORLD, steps), job)
  {
    RunKeepsRowInv(env, EMPTY_WORLD, steps, job);
    hide Run, AllQuiet, Guarded;
  }

  // ----- A job that gets one row -----

  /** Until a job gets its second row, nothing is lost from its histories and no row is unquiet. */
  ghost predicate FirstRow(env: ApprovalId -> Envelope, w: World, job: JobId) {
    w.inserted[job] <= 1 ==>
      && RowInv(env, w, job)
      && (forall id :: id in w.printed && Guarded(env(id)) && env(id).job == job ==> id in w.reached)
      && (forall id :: id in w.won && env(id).job == job ==> Owns(w, id, job))
      && (w.inserted[job] == 0 ==> job !in w.rows.jobs && job !in w.owner)
  }

  lemma NoRowIsQuiet(env: ApprovalId -> Envelope, w: World, step: Step, job: JobId)
    requires FirstRow(env, w, job) && Perform(env, w, step).inserted[job] <= 1
    ensures w.inserted[job] <= 1 && Quiet(env, w, step, job)
  {
    hide Guarded, AdvanceWorker;
    if step.Advance? && step.k in w.workers {
      MoveWorkers(env, w, step.k, step.lpOk);
    }
  }

  // What the other two clauses of FirstRow need to know of a step.
  lemma StepHistories(env: ApprovalId -> Envelope, w: World, step: Step, job: JobId)
    ensures var w' := Perform(env, w, step);
            && (w'.inserted[job] == w.inserted[job] ==>
                  && w.reached <= w'.reached + (set id | id in w.reached && env(id).job != job)
                  && (job !in w.rows.jobs ==> job !in w'.rows.jobs && (job in w'.owner <==> job in w.owner)))
            && (forall id :: id in w'.printed ==> id in w.printed || id in w'.reached)
            && (w'.inserted[job] > w.inserted[job] ==> w'.printed == w.printed && w'.won == w.won)
            && (w'.inserted[job] == w.inserted[job] && RowOwned(w, job) ==>
                  (forall id :: Owns(w, id, job) ==> Owns(w', id, job))
                  && forall id :: id in w'.won && env(id).job == job ==> id in w.won || Owns(w', id, job))
            && w'.inserted[job] >= w.inserted[job]
  {
    hide Guarded, FinishPc, Submitted;
    if step.Advance? && step.k in w.workers {
      MoveWorkers(env, w, step.k, step.lpOk);
      MoveClaims(env, w, step.k, step.lpOk);
    }
    hide AdvanceWorker;
  }

  lemma NonePrinted(env: ApprovalId -> Envelope, w: World, job: JobId)
    requires FirstRow(env, w, job) && w.inserted[job] == 0
    ensures forall id :: id in w.printed && Guarded(env(id)) ==> env(id).job != job
    ensures forall id :: id in w.won ==> env(id).job != job
  {
    hide Guarded;
  }

  lemma RowIsOwned(env: ApprovalId -> Envelope, w: World, job: JobId)
    requires RowInv(env, w, job)
    ensures RowOwned(w, job)
  {
  }

  lemma StepKeepsFirstRow(env: ApprovalId -> Envelope, w: World, step: Step, job: JobId)
    requires FirstRow(env, w, job) && RowsFollow(env, w)
    ensures FirstRow(env, Perform(env, w, step), job)
  {
    hide Guarded, AdvanceWorker, RowInv, RowsFollow, Quiet;
    StepHistories(env, w, step, job);
    if Perform(env, w, step).inserted[job] <= 1 {
      NoRowIsQuiet(env, w, step, job);
      StepKeepsRowInv(env, w, step, job);
      RowIsOwned(env, w, job);
      hide Owns;
      if w.inserted[job] == 0 {
        NonePrinted(env, w, job);
      }
    }
  }

  lemma {:induction false} RunKeepsFirstRow(env: ApprovalId -> Envelope, w: World, steps: seq<Step>, job: JobId)
    requires FirstRow(env, w, job) && RowsFollow(env, w)
    ensures FirstRow(env, Run(env, w, steps), job)
    decreases |steps|
  {
    hide FirstRow, RowsFollow, Perform;
    if steps != [] {
      StepKeepsFirstRow(env, w, steps[0], job);
      StepKeepsRowsFollow(env, w, steps[0]);
      RunKeepsFirstRow(env, Perform(env, w, steps[0]), steps[1..], job);
    }
  }

  /** A job that never gets a second row is printed by at most one device approval, in any run at all. */
  lemma OnlyOnePrints(env: ApprovalId -> Envelope, steps: seq<Step>, a: ApprovalId, b: ApprovalId)
    requires Guarded(env(a)) && Guarded(env(b)) && env(a).job == env(b).job
    requires Run(env, EMPTY_WORLD, steps).inserted[env(a).job] <= 1
    requires a in Run(env, EMPTY_WORLD, steps).printed && b in Run(env, EMPTY_WORLD, steps).printed
    ensures a == b
  {
    RunKeepsFirstRow(env, EMPTY_WORLD, steps, env(a).job);
    hide Run, Guarded;
  }

  // ----- Losers -----

  /** Past winning a claim on the way through the side effect. */
  predicate Claimed(pc: Pc) {
    pc.Looking? || pc.Submitting? || pc.Updating? || pc.Settling?
  }

  ghost predicate WinnersFollow(env: ApprovalId -> Envelope, w: World) {
    && (forall k :: k in w.workers && Guarded(env(w.workers[k].id)) && Claimed(w.workers[k].pc) ==> w.workers[k].id in w.won)
    && (forall id :: id in w.rows.approvals && Guarded(env(id)) && w.rows.approvals[id].applied
          && w.rows.approvals[id].detail != Some(Superseded)
          ==> id in w.won)
  }

  lemma MoveClaimed(env: ApprovalId -> Envelope, w: World, k: WorkerId, lpOk: bool)
    requires k in w.workers
    ensures var pc, pc' := w.workers[k].pc, AdvanceWorker(env, w, k, lpOk).workers[k].pc;
            Guarded(env(w.workers[k].id)) && Claimed(pc')
            ==> Claimed(pc) || (pc.Claiming? && CanClaim(w.rows, env(w.workers[k].id).job, w.workers[k].id))
  {
    hide Record, Claim, MarkApplied, SetStatus, CanClaim;
  }

  lemma AdvanceKeepsWinners(env: ApprovalId -> Envelope, w: World, k: WorkerId, lpOk: bool)
    requires WinnersFollow(env, w) && k in w.workers
    ensures WinnersFollow(env, AdvanceWorker(env, w, k, lpOk))
  {
    MoveWorkers(env, w, k, lpOk);
    MoveClaims(env, w, k, lpOk);
    MoveClaimed(env, w, k, lpOk);
    MoveRows(env, w, k, lpOk);
    hide AdvanceWorker, Guarded, CanClaim, Claim, SetStatus;
  }

  lemma StepKeepsWinners(env: ApprovalId -> Envelope, w: World, step: Step)
    requires WinnersFollow(env, w) && RowsFollow(env, w)
    ensures WinnersFollow(env, Perform(env, w, step))
  {
    if step.Advance? {
      hide AdvanceWorker, WinnersFollow;
      if step.k in w.workers {
        AdvanceKeepsWinners(env, w, step.k, step.lpOk);
      }
    } else {
      hide AdvanceWorker, Guarded, FinishPc, Submitted;
      FinishPcUnclaimed();
    }
  }

  lemma {:induction false} RunKeepsWinners(env: ApprovalId -> Envelope, w: World, steps: seq<Step>)
    requires WinnersFollow(env, w) && RowsFollow(env, w)
    ensures WinnersFollow(env, Run(env, w, steps))
    decreases |steps|
  {
    hide WinnersFollow, RowsFollow, Perform;
    if steps != [] {
      StepKeepsWinners(env, w, steps[0]);
      StepKeepsRowsFollow(env, w, steps[0]);
      RunKeepsWinners(env, Perform(env, w, steps[0]), steps[1..]);
    }
  }

  /**
   * In any run, an applied device print that never won a claim ended superseded; and so did one
   * that does not hold the claim of its job's only row.
   */
  lemma LosersAreSuperseded(env: ApprovalId -> Envelope, steps: seq<Step>, id: ApprovalId)
    requires Guarded(env(id))
    ensures var w, job := Run(env, EMPTY_WORLD, steps), env(id).job;
            && (Applied(w.rows, id) && id !in w.won ==> w.rows.approvals[id].detail == Some(Superseded))
            && (Applied(w.rows, id) && w.inserted[job] <= 1 && job in w.rows.jobs && w.rows.jobs[job].finalizing != Some(id)
                ==> w.rows.approvals[id].detail == Some(Superseded))
  {
    RunKeepsWinners(env, EMPTY_WORLD, steps);
    RunKeepsFirstRow(env, EMPTY_WORLD, steps, env(id).job);
    hide Run, Guarded;
  }

  // ----- A claim is permanent -----

  /** The row of w, if it is still there, keeps its claim; a job row that is gone or new is another. */
  predicate ClaimKept(w: World, w': World, job: JobId) {
    && w'.inserted[job] >= w.inserted[job]
    && (w'.inserted[job] == w.inserted[job] && job in w'.rows.jobs ==>
          job in w.rows.jobs && (w.rows.jobs[job].finalizing.Some? ==> w'.rows.jobs[job].finalizing == w.rows.jobs[job].finalizing))
  }

  lemma StepKeepsClaim(env: ApprovalId -> Envelope, w: World, step: Step, job: JobId)
    ensures ClaimKept(w, Perform(env, w, step), job)
  {
    hide FinishPc, Submitted;
    if step.Advance? && step.k in w.workers {
      MoveWorkers(env, w, step.k, step.lpOk);
      MoveClaims(env, w, step.k, step.lpOk);
    }
    hide AdvanceWorker;
  }

  lemma {:induction false} RunKeepsClaim(env: ApprovalId -> Envelope, w: World, steps: seq<Step>, job: JobId)
    ensures ClaimKept(w, Run(env, w, steps), job)
    decreases |steps|
  {
    hide Perform;
    if steps != [] {
      StepKeepsClaim(env, w, steps[0], job);
      RunKeepsClaim(env, Perform(env, w, steps[0]), steps[1..], job);
    }
  }

  /** In any run, as long as no new row is inserted for the job, a set finalizing approval never changes. */
  lemma FinalizingNeverChanges(env: ApprovalId -> Envelope, before: seq<Step>, after: seq<Step>, job: JobId)
    ensures var w, w' := Run(env, EMPTY_WORLD, before), Run(env, EMPTY_WORLD, before + after);
            job in w.rows.jobs && w.rows.jobs[job].finalizing.Some? && job in w'.rows.jobs
            && w'.inserted[job] == w.inserted[job]
            ==> w'.rows.jobs[job].finalizing == w.rows.jobs[job].finalizing
  {
    RunConcat(env, EMPTY_WORLD, before, after);
    RunKeepsClaim(env, Run(env, EMPTY_WORLD, before), after, job);
    hide Run;
  }

  // ----- A finished delivery has been applied -----

  ghost predicate CallsRecorded(w: World) {
    forall k | k in w.workers ::
      && (w.workers[k].pc.Done? ==> Applied(w.rows, w.workers[k].id))
      && (!w.workers[k].pc.Recording? ==> w.workers[k].id in w.rows.approvals)
  }

  predicate RowsGrow(r: Rows, r': Rows) {
    forall id | id in r.approvals :: id in r'.approvals && (r.approvals[id].applied ==> r'.approvals[id].applied)
  }

  lemma GrowthKeepsApplied(r: Rows, r': Rows)
    requires RowsGrow(r, r')
    ensures forall id :: Applied(r, id) ==> Applied(r', id)
  {
  }

  lemma MoveRecorded(env: ApprovalId -> Envelope, w: World, k: WorkerId, lpOk: bool)
    requires k in w.workers && !w.workers[k].pc.Done? && !w.workers[k].pc.Raised?
    ensures var w' := AdvanceWorker(env, w, k, lpOk);
            var id, pc := w.workers[k].id, w.workers[k].pc;
            && RowsGrow(w.rows, w'.rows)
            && (pc.Recording? ==> id in w'.rows.approvals && !w'.workers[k].pc.Done?)
            && !w'.workers[k].pc.Recording?
            && (w'.workers[k].pc.Done? && id in w.rows.approvals ==> Applied(w'.rows, id))
  {
    MoveRows(env, w, k, lpOk);
    hide Claim, SetStatus;
  }

  lemma AdvanceKeepsRecorded(env: ApprovalId -> Envelope, w: World, k: WorkerId, lpOk: bool)
    requires CallsRecorded(w) && k in w.workers
    ensures CallsRecorded(AdvanceWorker(env, w, k, lpOk)) && RowsGrow(w.rows, AdvanceWorker(env, w, k, lpOk).rows)
  {
    if !w.workers[k].pc.Done? && !w.workers[k].pc.Raised? {
      MoveWorkers(env, w, k, lpOk);
      MoveRecorded(env, w, k, lpOk);
      hide AdvanceWorker;
    }
  }

  /** Whatever the Pi does, a finished call stays applied and no applied row is undone. */
  lemma StepKeepsRecorded(env: ApprovalId -> Envelope, w: World, step: Step)
    requires CallsRecorded(w)
    ensures CallsRecorded(Perform(env, w, step)) && RowsGrow(w.rows, Perform(env, w, step).rows)
  {
    if step.Advance? {
      hide AdvanceWorker, CallsRecorded, RowsGrow;
      if step.k in w.workers {
        AdvanceKeepsRecorded(env, w, step.k, step.lpOk);
      } else {
        RowsGrowRefl(w.rows);
      }
    } else {
      hide AdvanceWorker, FinishPc, Guarded, Submitted;
      assert Perform(env, w, step).rows.approvals == w.rows.approvals;
      assert FinishPcStarts() by { FinishStarts(); }
    }
  }

  lemma RowsGrowRefl(r: Rows)
    ensures RowsGrow(r, r)
  {
  }

  ghost predicate FinishPcStarts() {
    forall e :: FinishPc(e).Claiming? || FinishPc(e).Looking?
  }

  lemma FinishStarts()
    ensures FinishPcStarts()
  {
  }
}
