/**
 * The Pi's code that applies approvals: the database's transactions on its own rows,
 * one undisturbed call of apply_approval, and the replay at startup.
 */
module PiServer {
  import opened Options
  import opened PiRows
  import opened PiMachine

  /** The approvals not yet applied, in the order they were received. */
  function UnappliedOf(received: seq<ApprovalId>, approvals: map<ApprovalId, Row>): seq<ApprovalId> {
    if received == [] then []
    else
      var last := received[|received| - 1];
      UnappliedOf(received[..|received| - 1], approvals)
      + (if last in approvals && !approvals[last].applied then [last] else [])
  }

  /** The database file: its rows, with approvals listed in the order they were received. */
  class Database {
    var jobs: map<JobId, Job>
    var approvals: map<ApprovalId, Row>
    var received: seq<ApprovalId>

    ghost predicate Valid()
      reads this
    {
      && (forall i, j :: 0 <= i < j < |received| ==> received[i] != received[j])
      && (forall id :: id in approvals <==> id in received)
    }

    function Contents(): Rows
      reads this
    {
      Rows(jobs, approvals)
    }

    constructor ()
      ensures Valid() && Contents() == Rows(map[], map[])
    {
      jobs, approvals, received := map[], map[], [];
    }

    method RecordApprovalIfNew(id: ApprovalId, e: Envelope) returns (isNew: bool)
      requires Valid()
      modifies this
      ensures Valid() && Contents() == Record(old(Contents()), id, e)
      ensures isNew <==> id !in old(approvals)
      ensures approvals == if isNew then old(approvals)[id := Row(e, false, None)] else old(approvals)
    {
      isNew := id !in approvals;
      if isNew {
        approvals := approvals[id := Row(e, false, None)];
        received := received + [id];
      }
    }

    method ClaimJobForFinalization(job: JobId, id: ApprovalId) returns (won: bool)
      requires Valid()
      modifies this`jobs
      ensures Valid() && Contents() == Claim(old(Contents()), job, id)
      ensures won <==> CanClaim(old(Contents()), job, id)
      ensures won <==> job in old(jobs) && (old(jobs)[job].finalizing == None || old(jobs)[job].finalizing == Some(id))
      ensures jobs == if won then old(jobs)[job := old(jobs)[job].(finalizing := Some(id))] else old(jobs)
    {
      won := false;
      if job in jobs && (jobs[job].finalizing == None || jobs[job].finalizing == Some(id)) {
        jobs := jobs[job := jobs[job].(finalizing := Some(id))];
        won := true;
      }
    }

    method MarkApprovalApplied(id: ApprovalId, detail: Detail)
      requires Valid()
      modifies this`approvals
      ensures Valid() && Contents() == MarkApplied(old(Contents()), id, detail)
      ensures id in approvals ==>
                approvals == old(approvals)[id := Row(old(approvals)[id].env, true, Some(detail))]
    {
      if id in approvals {
        approvals := approvals[id := approvals[id].(applied := true, detail := Some(detail))];
      }
    }

    method SetJobStatus(job: JobId, status: JobStatus)
      requires Valid()
      modifies this`jobs
      ensures Valid() && Contents() == SetStatus(old(Contents()), job, status)
      ensures job in jobs ==> jobs == old(jobs)[job := Job(status, old(jobs)[job].finalizing)]
    {
      if job in jobs {
        jobs := jobs[job := jobs[job].(status := status)];
      }
    }

    /** Every recorded approval that is not applied, oldest first. */
    method ListUnapplied() returns (pending: seq<ApprovalId>)
      requires Valid()
      ensures pending == UnappliedOf(received, approvals)
      ensures forall id :: id in pending <==> Unapplied(Contents(), id)
      ensures forall i, j :: 0 <= i < j < |pending| ==> pending[i] != pending[j] && Precedes(received, pending[i], pending[j])
    {
      pending := [];
      for i := 0 to |received|
        invariant pending == UnappliedOf(received[..i], approvals)
      {
        assert received[..i + 1][..i] == received[..i];
        if !approvals[received[i]].applied {
          pending := pending + [received[i]];
        }
      }
      assert received[..|received|] == received;
      UnappliedListed(received, approvals);
    }
  }

  lemma {:induction false} UnappliedListed(received: seq<ApprovalId>, approvals: map<ApprovalId, Row>)
    requires forall i, j :: 0 <= i < j < |received| ==> received[i] != received[j]
    ensures var pending := UnappliedOf(received, approvals);
            && (forall id :: id in pending <==> id in received && id in approvals && !approvals[id].applied)
            && (forall i, j :: 0 <= i < j < |pending| ==> pending[i] != pending[j] && Precedes(received, pending[i], pending[j]))
  {
    if received != [] {
      var front, last := received[..|received| - 1], received[|received| - 1];
      UnappliedListed(front, approvals);
      assert received == front + [last];
      var rest := UnappliedOf(front, approvals);
      assert last !in front;
      forall i | 0 <= i < |rest| ensures rest[i] != last && Precedes(received, rest[i], last) {
        assert rest[i] in rest;
        PrecedesLonger(front, last, rest[i], last);
      }
      forall i, j | 0 <= i < j < |rest| ensures Precedes(received, rest[i], rest[j]) {
        PrecedesLonger(front, last, rest[i], rest[j]);
      }
    }
  }

  // ----- One call, undisturbed -----

  /** How a call of _finish ends: the rows it leaves, whether lp took a document, whether it raised. */
  datatype Finished = Finished(rows: Rows, printed: bool, raised: bool)

  function SideEffect(r: Rows, id: ApprovalId, e: Envelope, lpOk: bool): Finished {
    if e.job !in r.jobs then
      Finished(MarkApplied(r, id, if e.action.Print? then PrintFailed else Failed), false, false)
    else match e.action
      case Print =>
        if !lpOk then Finished(MarkApplied(r, id, PrintFailed), false, false)
        else
          var r' := if r.jobs[e.job].status.Deleted? then r else SetStatus(r, e.job, Kept);
          Finished(MarkApplied(r', id, Printed), true, false)
      case Keep => Finished(MarkApplied(SetStatus(r, e.job, Kept), id, KeptIt), false, false)
      case Delete => Finished(MarkApplied(SetStatus(r, e.job, Deleted), id, Archived), false, false)
  }

  function FinishResult(r: Rows, id: ApprovalId, e: Envelope, lpOk: bool): Finished {
    if !Guarded(e) then SideEffect(r, id, e, lpOk)
    else if CanClaim(r, e.job, id) then SideEffect(Claim(r, e.job, id), id, e, lpOk)
    else if e.job in r.jobs then Finished(MarkApplied(r, id, Superseded), false, false)
    else Finished(r, false, true)
  }

  // ----- What a call leaves, in the tables' own terms -----

  /** The job's row after a call, and what the approval's row says of it. */
  predicate JobAfter(was: Job, now: Job, id: ApprovalId, e: Envelope, lpOk: bool, detail: Detail, printed: bool) {
    var claims := e.action.Print? && !e.admin;
    if claims && was.finalizing != None && was.finalizing != Some(id) then
      now == was && detail == Superseded && !printed
    else
      && now.finalizing == (if claims then Some(id) else was.finalizing)
      && match e.action
         case Keep => now.status == Kept && detail == KeptIt && !printed
         case Delete => now.status == Deleted && detail == Archived && !printed
         case Print =>
           if lpOk then printed && detail == Printed && now.status == (if was.status == Deleted then Deleted else Kept)
           else !printed && detail == PrintFailed && now.status == was.status
  }

  /** All rows after a call for an approval that was not applied: nobody else's changes. */
  ghost predicate CarriedOut(was: Rows, now: Rows, id: ApprovalId, e: Envelope, lpOk: bool, printed: bool, raised: bool) {
    && now.jobs.Keys == was.jobs.Keys
    && (forall j :: j in was.jobs && j != e.job ==> now.jobs[j] == was.jobs[j])
    && now.approvals.Keys == was.approvals.Keys + {id}
    && (forall a :: a in was.approvals && a != id ==> now.approvals[a] == was.approvals[a])
    && now.approvals[id].env == (if id in was.approvals then was.approvals[id].env else e)
    && (raised <==> e.job !in was.jobs && e.action.Print? && !e.admin)
    && (now.approvals[id].applied <==> !raised)
    && (!raised ==> now.approvals[id].detail.Some?)
    && (raised ==> !printed && now.jobs == was.jobs)
    && (e.job !in was.jobs && !raised ==>
          !printed && now.approvals[id].detail == Some(if e.action.Print? then PrintFailed else Failed))
    && (e.job in was.jobs ==>
          JobAfter(was.jobs[e.job], now.jobs[e.job], id, e, lpOk, now.approvals[id].detail.value, printed))
  }

  // After the claim, if there had to be one: the action itself.
  lemma SideEffectCarriesOut(r: Rows, id: ApprovalId, e: Envelope, lpOk: bool)
    requires Unapplied(r, id)
    ensures var f := SideEffect(r, id, e, lpOk);
            && !f.raised && f.rows.jobs.Keys == r.jobs.Keys
            && (forall j :: j in r.jobs && j != e.job ==> f.rows.jobs[j] == r.jobs[j])
            && f.rows.approvals.Keys == r.approvals.Keys
            && (forall a :: a in r.approvals && a != id ==> f.rows.approvals[a] == r.approvals[a])
            && f.rows.approvals[id].env == r.approvals[id].env && f.rows.approvals[id].applied && f.rows.approvals[id].detail.Some?
            && var detail := f.rows.approvals[id].detail.value;
               if e.job !in r.jobs then !f.printed && detail == if e.action.Print? then PrintFailed else Failed
               else
                 var was, now := r.jobs[e.job], f.rows.jobs[e.job];
                 && now.finalizing == was.finalizing
                 && match e.action
                    case Keep => now.status == Kept && detail == KeptIt && !f.printed
                    case Delete => now.status == Deleted && detail == Archived && !f.printed
                    case Print =>
                      if lpOk then f.printed && detail == Printed && now.status == (if was.status == Deleted then Deleted else Kept)
                      else !f.printed && detail == PrintFailed && now.status == was.status
  {
  }

  lemma FinishCarriesOut(r: Rows, id: ApprovalId, e: Envelope, lpOk: bool)
    requires Unapplied(r, id)
    ensures var f := FinishResult(r, id, e, lpOk);
            CarriedOut(r, f.rows, id, e, lpOk, f.printed, f.raised)
  {
    if !Guarded(e) {
      UnclaimedCarriesOut(r, id, e, lpOk);
    } else if CanClaim(r, e.job, id) {
      WinnerCarriesOut(r, id, e, lpOk);
    } else {
      LoserCarriesOut(r, id, e, lpOk);
    }
  }

  lemma UnclaimedCarriesOut(r: Rows, id: ApprovalId, e: Envelope, lpOk: bool)
    requires Unapplied(r, id) && !Guarded(e)
    ensures var f := SideEffect(r, id, e, lpOk);
            CarriedOut(r, f.rows, id, e, lpOk, f.printed, f.raised)
  {
    SideEffectCarriesOut(r, id, e, lpOk);
    hide SideEffect;
  }

  lemma WinnerCarriesOut(r: Rows, id: ApprovalId, e: Envelope, lpOk: bool)
    requires Unapplied(r, id) && Guarded(e) && CanClaim(r, e.job, id)
    ensures var f := SideEffect(Claim(r, e.job, id), id, e, lpOk);
            CarriedOut(r, f.rows, id, e, lpOk, f.printed, f.raised)
  {
    SideEffectCarriesOut(Claim(r, e.job, id), id, e, lpOk);
    hide SideEffect;
  }

  lemma LoserCarriesOut(r: Rows, id: ApprovalId, e: Envelope, lpOk: bool)
    requires Unapplied(r, id) && Guarded(e) && !CanClaim(r, e.job, id)
    ensures var f := FinishResult(r, id, e, lpOk);
            CarriedOut(r, f.rows, id, e, lpOk, f.printed, f.raised)
  {
    hide SideEffect;
  }

  lemma RecordingCarriesOut(r: Rows, now: Rows, id: ApprovalId, e: Envelope, lpOk: bool, printed: bool, raised: bool)
    requires !Applied(r, id) && CarriedOut(Record(r, id, e), now, id, e, lpOk, printed, raised)
    ensures CarriedOut(r, now, id, e, lpOk, printed, raised)
  {
    hide JobAfter;
  }

  /** Finishes an approval: claim if it has to, carry out the action, mark it applied. */
  method Finish(db: Database, id: ApprovalId, e: Envelope, lpOk: bool) returns (printed: bool, raised: bool)
    requires db.Valid()
    modifies db
    ensures db.Valid() && db.received == old(db.received)
    ensures Finished(db.Contents(), printed, raised) == FinishResult(old(db.Contents()), id, e, lpOk)
    ensures Unapplied(old(db.Contents()), id) ==> CarriedOut(old(db.Contents()), db.Contents(), id, e, lpOk, printed, raised)
  {
    hide CarriedOut;
    if Unapplied(db.Contents(), id) {
      FinishCarriesOut(db.Contents(), id, e, lpOk);
    }
    printed, raised := false, false;
    if e.action.Print? && !e.admin {
      var won := db.ClaimJobForFinalization(e.job, id);
      if !won {
        if e.job !in db.jobs {
          return false, true;  // there is no row to read the winner from
        }
        db.MarkApprovalApplied(id, Superseded);
        return;
      }
    }
    if e.job !in db.jobs {
      db.MarkApprovalApplied(id, if e.action.Print? then PrintFailed else Failed);
      return;
    }
    match e.action {
      case Print =>
        if !lpOk {
          db.MarkApprovalApplied(id, PrintFailed);
          return;
        }
        printed := true;
        if db.jobs[e.job].status != Deleted {
          db.SetJobStatus(e.job, Kept);
        }
        db.MarkApprovalApplied(id, Printed);
      case Keep =>
        db.SetJobStatus(e.job, Kept);
        db.MarkApprovalApplied(id, KeptIt);
      case Delete =>
        db.SetJobStatus(e.job, Deleted);
        db.MarkApprovalApplied(id, Archived);
    }
  }

  datatype Reply = AppliedNow | AlreadyApplied | SupersededNow | RaisedInstead

  /**
   * One delivery of an approval. A second delivery changes nothing and reports the first;
   * any reply that is not an exception means that the approval is applied.
   */
  method ApplyApproval(db: Database, id: ApprovalId, e: Envelope, lpOk: bool) returns (reply: Reply, printed: bool)
    requires db.Valid()
    modifies db
    ensures db.Valid()
    ensures reply.AlreadyApplied? <==> Applied(old(db.Contents()), id)
    ensures reply.AlreadyApplied? ==> !printed && db.Contents() == old(db.Contents())
    ensures !reply.AlreadyApplied? ==>
              Finished(db.Contents(), printed, reply.RaisedInstead?)
              == FinishResult(Record(old(db.Contents()), id, e), id, e, lpOk)
    ensures !reply.AlreadyApplied? ==>
              CarriedOut(old(db.Contents()), db.Contents(), id, e, lpOk, printed, reply.RaisedInstead?)
    ensures !reply.RaisedInstead? ==> Applied(db.Contents(), id)
    ensures reply.SupersededNow? ==> db.approvals[id].detail == Some(Superseded)
    ensures reply.AppliedNow? ==> db.approvals[id].detail != Some(Superseded)
  {
    var isNew := db.RecordApprovalIfNew(id, e);
    if !isNew && db.approvals[id].applied {
      return AlreadyApplied, false;
    }
    ghost var r := db.Contents();
    FinishKeepsRows(r, id, e, lpOk);
    var raised;
    printed, raised := Finish(db, id, e, lpOk);
    hide FinishResult, CarriedOut;
    RecordingCarriesOut(old(db.Contents()), db.Contents(), id, e, lpOk, printed, raised);
    if raised {
      reply := RaisedInstead;
    } else if db.approvals[id].detail == Some(Superseded) {
      reply := SupersededNow;
    } else {
      reply := AppliedNow;
    }
  }

  // ----- The undisturbed call is a run of the step machine -----

  function Advances(k: WorkerId, lpOk: bool, n: nat): seq<Step> {
    seq(n, i => Advance(k, lpOk))
  }

  lemma AdvanceOnce(env: ApprovalId -> Envelope, w: World, k: WorkerId, lpOk: bool, n: nat)
    requires k in w.workers && n > 0
    ensures Run(env, w, Advances(k, lpOk, n))
         == Run(env, AdvanceWorker(env, w, k, lpOk), Advances(k, lpOk, n - 1))
  {
    hide AdvanceWorker;
    assert Advances(k, lpOk, n)[1..] == Advances(k, lpOk, n - 1);
    assert Advances(k, lpOk, n)[0] == Advance(k, lpOk);
  }

  // A call that has ended takes no further steps.
  lemma {:induction false} EndedStays(env: ApprovalId -> Envelope, w: World, k: WorkerId, lpOk: bool, n: nat)
    requires k in w.workers && (w.workers[k].pc.Done? || w.workers[k].pc.Raised?)
    ensures Run(env, w, Advances(k, lpOk, n)) == w
  {
    if n > 0 {
      AdvanceOnce(env, w, k, lpOk, n);
      EndedStays(env, w, k, lpOk, n - 1);
    }
  }

  // Its turns start and end no call.
  lemma {:induction false} AdvancesKeepCalls(env: ApprovalId -> Envelope, w: World, k: WorkerId, lpOk: bool, n: nat)
    requires k in w.workers
    ensures Run(env, w, Advances(k, lpOk, n)).workers.Keys == w.workers.Keys
    decreases n
  {
    hide AdvanceWorker;
    if n > 0 {
      AdvanceOnce(env, w, k, lpOk, n);
      MoveWorkers(env, w, k, lpOk);
      AdvancesKeepCalls(env, AdvanceWorker(env, w, k, lpOk), k, lpOk, n - 1);
    }
  }

  // The same world as far as one call can tell.
  ghost predicate EndsAs(w: World, k: WorkerId, f: Finished, w': World) {
    && k in w.workers && k in w'.workers
    && w'.rows == f.rows
    && w'.workers[k] == Worker(w.workers[k].id, if f.raised then Raised else Done)
    && w'.printed == (if f.printed then w.printed + multiset{w.workers[k].id} else w.printed)
  }

  lemma SettlingRun(env: ApprovalId -> Envelope, w: World, k: WorkerId, lpOk: bool, n: nat)
    requires k in w.workers && w.workers[k].pc.Settling? && n > 0
    ensures EndsAs(w, k, Finished(MarkApplied(w.rows, w.workers[k].id, w.workers[k].pc.detail), false, false),
                   Run(env, w, Advances(k, lpOk, n)))
  {
    hide MarkApplied, Run;
    AdvanceOnce(env, w, k, lpOk, n);
    EndedStays(env, AdvanceWorker(env, w, k, lpOk), k, lpOk, n - 1);
  }

  lemma UpdatingRun(env: ApprovalId -> Envelope, w: World, k: WorkerId, lpOk: bool, n: nat)
    requires k in w.workers && w.workers[k].pc.Updating? && n > 1
    ensures var id := w.workers[k].id;
            EndsAs(w, k, Finished(MarkApplied(SetStatus(w.rows, env(id).job, w.workers[k].pc.status), id,
                                              w.workers[k].pc.detail), false, false),
                   Run(env, w, Advances(k, lpOk, n)))
  {
    hide MarkApplied, SetStatus, Run;
    AdvanceOnce(env, w, k, lpOk, n);
    SettlingRun(env, AdvanceWorker(env, w, k, lpOk), k, lpOk, n - 1);
  }

  lemma SubmittingRun(env: ApprovalId -> Envelope, w: World, k: WorkerId, lpOk: bool, n: nat)
    requires k in w.workers && w.workers[k].pc.Submitting? && n > 2
    ensures var id, r := w.workers[k].id, w.rows;
            var kept := if w.workers[k].pc.deleted then r else SetStatus(r, env(id).job, Kept);
            EndsAs(w, k, if lpOk then Finished(MarkApplied(kept, id, Printed), true, false)
                         else Finished(MarkApplied(r, id, PrintFailed), false, false),
                   Run(env, w, Advances(k, lpOk, n)))
  {
    hide MarkApplied, SetStatus, Run;
    AdvanceOnce(env, w, k, lpOk, n);
    var w1 := AdvanceWorker(env, w, k, lpOk);
    if w1.workers[k].pc.Settling? {
      SettlingRun(env, w1, k, lpOk, n - 1);
    } else {
      UpdatingRun(env, w1, k, lpOk, n - 1);
    }
  }

  lemma LookingRun(env: ApprovalId -> Envelope, w: World, k: WorkerId, lpOk: bool, n: nat)
    requires k in w.workers && w.workers[k].pc.Looking? && n > 3
    ensures EndsAs(w, k, SideEffect(w.rows, w.workers[k].id, env(w.workers[k].id), lpOk),
                   Run(env, w, Advances(k, lpOk, n)))
  {
    hide MarkApplied, SetStatus, Run;
    AdvanceOnce(env, w, k, lpOk, n);
    var w1 := Move(w, k, AfterLooking(w.rows, env(w.workers[k].id)));
    assert AdvanceWorker(env, w, k, lpOk) == w1;
    hide AdvanceWorker;
    if w1.workers[k].pc.Settling? {
      SettlingRun(env, w1, k, lpOk, n - 1);
    } else if w1.workers[k].pc.Updating? {
      UpdatingRun(env, w1, k, lpOk, n - 1);
    } else {
      SubmittingRun(env, w1, k, lpOk, n - 1);
    }
  }

  lemma LosingRun(env: ApprovalId -> Envelope, w: World, k: WorkerId, lpOk: bool, n: nat)
    requires k in w.workers && w.workers[k].pc.Losing? && n > 1
    ensures var id := w.workers[k].id;
            EndsAs(w, k, if env(id).job in w.rows.jobs then Finished(MarkApplied(w.rows, id, Superseded), false, false)
                         else Finished(w.rows, false, true),
                   Run(env, w, Advances(k, lpOk, n)))
  {
    hide MarkApplied, Run;
    AdvanceOnce(env, w, k, lpOk, n);
    var w1 := AdvanceWorker(env, w, k, lpOk);
    if w1.workers[k].pc.Yielding? {
      AdvanceOnce(env, w1, k, lpOk, n - 1);
      EndedStays(env, AdvanceWorker(env, w1, k, lpOk), k, lpOk, n - 2);
    } else {
      EndedStays(env, w1, k, lpOk, n - 1);
    }
  }

  lemma ClaimingRun(env: ApprovalId -> Envelope, w: World, k: WorkerId, lpOk: bool, n: nat)
    requires n >= 5 && k in w.workers && w.workers[k].pc.Claiming? && Guarded(env(w.workers[k].id))
    ensures EndsAs(w, k, FinishResult(w.rows, w.workers[k].id, env(w.workers[k].id), lpOk),
                   Run(env, w, Advances(k, lpOk, n)))
  {
    hide MarkApplied, SideEffect, Run, Claim, CanClaim, Guarded;
    AdvanceOnce(env, w, k, lpOk, n);
    var w1 := AdvanceWorker(env, w, k, lpOk);
    if CanClaim(w.rows, env(w.workers[k].id).job, w.workers[k].id) {
      assert w1.workers[k].pc.Looking?;
      LookingRun(env, w1, k, lpOk, n - 1);
    } else {
      assert w1.workers[k].pc.Losing?;
      LosingRun(env, w1, k, lpOk, n - 1);
    }
    hide AdvanceWorker;
  }

  lemma FinishIsRunOf(env: ApprovalId -> Envelope, w: World, k: WorkerId, lpOk: bool, n: nat)
    requires n >= 5 && k in w.workers && w.workers[k].pc == FinishPc(env(w.workers[k].id))
    ensures EndsAs(w, k, FinishResult(w.rows, w.workers[k].id, env(w.workers[k].id), lpOk),
                   Run(env, w, Advances(k, lpOk, n)))
  {
    hide Guarded, Run, EndsAs, SideEffect, Claim, CanClaim;
    if Guarded(env(w.workers[k].id)) {
      ClaimingRun(env, w, k, lpOk, n);
    } else {
      LookingRun(env, w, k, lpOk, n);
    }
  }

  /** A call of _finish that nothing interrupts is five turns of the step machine. */
  lemma FinishIsRun(env: ApprovalId -> Envelope, w: World, k: WorkerId, lpOk: bool)
    requires k in w.workers && w.workers[k].pc == FinishPc(env(w.workers[k].id))
    ensures EndsAs(w, k, FinishResult(w.rows, w.workers[k].id, env(w.workers[k].id), lpOk),
                   Run(env, w, Advances(k, lpOk, 5)))
  {
    hide FinishResult, Run, FinishPc, EndsAs;
    FinishIsRunOf(env, w, k, lpOk, 5);
  }

  /** The rows and submissions of a whole delivery that nothing interrupts. */
  function ApplyResult(r: Rows, id: ApprovalId, e: Envelope, lpOk: bool): Finished {
    if Applied(r, id) then Finished(r, false, false) else FinishResult(Record(r, id, e), id, e, lpOk)
  }

  /** A call of apply_approval that nothing interrupts, from its start, is seven turns of the step machine. */
  lemma ApplyIsRun(env: ApprovalId -> Envelope, w: World, k: WorkerId, id: ApprovalId, lpOk: bool)
    requires k !in w.workers
    ensures var w1 := Perform(env, w, Deliver(k, id));
            EndsAs(w1, k, ApplyResult(w.rows, id, env(id), lpOk), Run(env, w1, Advances(k, lpOk, 7)))
  {
    hide FinishResult, Run, FinishPc;
    var w1 := Perform(env, w, Deliver(k, id));
    AdvanceOnce(env, w1, k, lpOk, 7);
    var w2 := AdvanceWorker(env, w1, k, lpOk);
    if id !in w.rows.approvals {
      FinishIsRunOf(env, w2, k, lpOk, 6);
    } else {
      assert Record(w.rows, id, env(id)) == w.rows;
      AdvanceOnce(env, w2, k, lpOk, 6);
      var w3 := AdvanceWorker(env, w2, k, lpOk);
      if Applied(w.rows, id) {
        EndedStays(env, w3, k, lpOk, 5);
      } else {
        FinishIsRunOf(env, w3, k, lpOk, 5);
      }
    }
  }

  // ----- Startup replay -----

  /** Finishing the rows one after the other, up to the first that raises. */
  function ReplayResult(r: Rows, pending: seq<ApprovalId>, lpOk: ApprovalId -> bool): (Rows, bool)
    requires forall i :: 0 <= i < |pending| ==> pending[i] in r.approvals
    decreases |pending|
  {
    if pending == [] then (r, false)
    else
      var id := pending[0];
      var f := FinishResult(r, id, r.approvals[id].env, lpOk(id));
      FinishKeepsRows(r, id, r.approvals[id].env, lpOk(id));
      if f.raised then (f.rows, true) else ReplayResult(f.rows, pending[1..], lpOk)
  }

  // Which rows finishing one approval can touch.
  lemma FinishKeepsRows(r: Rows, id: ApprovalId, e: Envelope, lpOk: bool)
    ensures var f := FinishResult(r, id, e, lpOk);
            && f.rows.approvals.Keys == r.approvals.Keys
            && (forall x | x in r.approvals && x != id :: f.rows.approvals[x] == r.approvals[x])
            && (id in r.approvals ==> f.rows.approvals[id].env == r.approvals[id].env)
            && f.rows.jobs.Keys == r.jobs.Keys
            && (f.raised <==> Guarded(e) && e.job !in r.jobs)
            && (!f.raised && id in r.approvals ==> f.rows.approvals[id].applied)
  {
    SideEffectKeepsRows(if Guarded(e) then Claim(r, e.job, id) else r, id, e, lpOk);
    hide SideEffect, Guarded;
  }

  lemma SideEffectKeepsRows(r: Rows, id: ApprovalId, e: Envelope, lpOk: bool)
    ensures var f := SideEffect(r, id, e, lpOk);
            && f.rows.approvals.Keys == r.approvals.Keys
            && (forall x | x in r.approvals && x != id :: f.rows.approvals[x] == r.approvals[x])
            && (id in r.approvals ==> f.rows.approvals[id].env == r.approvals[id].env && f.rows.approvals[id].applied)
            && f.rows.jobs.Keys == r.jobs.Keys
            && !f.raised
  {
  }

  /** A recorded print that finishing cannot settle: its job has no row any more. */
  predicate Stuck(r: Rows, id: ApprovalId) {
    Unapplied(r, id) && Guarded(r.approvals[id].env) && r.approvals[id].env.job !in r.jobs
  }

  lemma {:induction false} ReplayOutcome(r: Rows, pending: seq<ApprovalId>, lpOk: ApprovalId -> bool)
    requires forall i :: 0 <= i < |pending| ==> pending[i] in r.approvals && Unapplied(r, pending[i])
    requires forall i, j :: 0 <= i < j < |pending| ==> pending[i] != pending[j]
    ensures var (r', raised) := ReplayResult(r, pending, lpOk);
            && (raised <==> exists i :: 0 <= i < |pending| && Stuck(r, pending[i]))
            && (!raised ==> forall id :: Unapplied(r', id) <==> Unapplied(r, id) && id !in pending)
    decreases |pending|
  {
    if pending != [] {
      var id := pending[0];
      var f := FinishResult(r, id, r.approvals[id].env, lpOk(id));
      FinishKeepsRows(r, id, r.approvals[id].env, lpOk(id));
      hide FinishResult, Guarded;
      if !f.raised {
        ReplayOutcome(f.rows, pending[1..], lpOk);
        assert forall i :: 0 <= i < |pending| - 1 ==> pending[1..][i] == pending[i + 1];
        assert forall i :: 0 < i < |pending| ==> (Stuck(f.rows, pending[i]) <==> Stuck(r, pending[i]));
        if i :| 0 <= i < |pending| && Stuck(r, pending[i]) {
          assert i > 0 && Stuck(f.rows, pending[1..][i - 1]);
        }
      }
    }
  }

  // The same of everything that is pending.
  lemma AllReplayed(r: Rows, pending: seq<ApprovalId>, lpOk: ApprovalId -> bool)
    requires forall id :: id in pending <==> Unapplied(r, id)
    requires forall i, j :: 0 <= i < j < |pending| ==> pending[i] != pending[j]
    ensures forall i :: 0 <= i < |pending| ==> pending[i] in r.approvals
    ensures ReplayResult(r, pending, lpOk).1 <==> exists id :: id in r.approvals && Stuck(r, id)
    ensures !ReplayResult(r, pending, lpOk).1 ==> forall id :: !Unapplied(ReplayResult(r, pending, lpOk).0, id)
  {
    hide ReplayResult, Guarded;
    assert forall i :: 0 <= i < |pending| ==> pending[i] in pending;
    ReplayOutcome(r, pending, lpOk);
    if id :| id in r.approvals && Stuck(r, id) {
      var i :| 0 <= i < |pending| && pending[i] == id;
      assert Stuck(r, pending[i]);
    }
  }

  /**
   * Startup replay leaves no recorded approval unapplied, and returns at all, if and only if
   * every unapplied device print still has its job row.
   */
  method ReplayUnappliedApprovals(db: Database, lpOk: ApprovalId -> bool) returns (count: nat, raised: bool)
    requires db.Valid()
    modifies db
    ensures db.Valid()
    ensures raised <==> exists id :: id in old(db.approvals) && Stuck(old(db.Contents()), id)
    ensures !raised ==> forall id :: !Unapplied(db.Contents(), id)
    ensures !raised ==> count == |UnappliedOf(old(db.received), old(db.approvals))|
    ensures db.jobs.Keys == old(db.jobs.Keys) && db.approvals.Keys == old(db.approvals.Keys)
  {
    hide FinishResult, Guarded, UnappliedOf, Stuck, Unapplied, CarriedOut, Precedes, ReplayResult;
    var pending := db.ListUnapplied();
    ghost var r := db.Contents();
    AllReplayed(r, pending, lpOk);
    count := 0;
    for i := 0 to |pending|
      invariant db.Valid() && count == i
      invariant db.jobs.Keys == old(db.jobs.Keys) && db.approvals.Keys == old(db.approvals.Keys)
      invariant forall j :: 0 <= j < |pending[i..]| ==> pending[i..][j] in db.approvals
      invariant ReplayResult(db.Contents(), pending[i..], lpOk) == ReplayResult(r, pending, lpOk)
    {
      var id := pending[i];
      ReplayOne(db.Contents(), pending, i, lpOk);
      FinishKeepsRows(db.Contents(), id, db.approvals[id].env, lpOk(id));
      var _, failed := Finish(db, id, db.approvals[id].env, lpOk(id));
      if failed {
        assert ReplayResult(r, pending, lpOk).1;
        return count, true;
      }
      count := count + 1;
    }
    raised := false;
    NothingToReplay(db.Contents(), lpOk);
    assert pending[|pending|..] == [];
  }

  lemma ReplayOne(r: Rows, pending: seq<ApprovalId>, i: nat, lpOk: ApprovalId -> bool)
    requires i < |pending| && forall j :: 0 <= j < |pending[i..]| ==> pending[i..][j] in r.approvals
    ensures pending[i] in r.approvals
    ensures var id, rest := pending[i], pending[i + 1..];
            var f := FinishResult(r, id, r.approvals[id].env, lpOk(id));
            && (forall j :: 0 <= j < |rest| ==> rest[j] in f.rows.approvals)
            && ReplayResult(r, pending[i..], lpOk) == if f.raised then (f.rows, true) else ReplayResult(f.rows, rest, lpOk)
  {
    hide FinishResult;
    assert pending[i..][0] == pending[i] && pending[i..][1..] == pending[i + 1..];
    FinishKeepsRows(r, pending[i], r.approvals[pending[i]].env, lpOk(pending[i]));
    var rest := pending[i + 1..];
    assert forall j :: 0 <= j < |rest| ==> rest[j] == pending[i..][j + 1];
  }

  lemma NothingToReplay(r: Rows, lpOk: ApprovalId -> bool)
    ensures ReplayResult(r, [], lpOk) == (r, false)
  {
  }
}
