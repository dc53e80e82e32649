/**
 * How often one approval is printed: once, plus once for every crash between lp accepting the
 * document and the approval being marked, if and only if no overlapping call starts at the wrong time.
 */
module PiPrinting {
  import opened Options
  import opened PiRows
  import opened PiMachine
  import opened PiProgress

  // ----- Calls that matter to another one -----

  /** A call for the approval that can still take its document to lp. */
  predicate MayPrint(w: World, k: WorkerId, id: ApprovalId) {
    k in w.workers && w.workers[k].id == id &&
    var pc := w.workers[k].pc;
    pc.Claiming? || PastClaim(pc) || ((pc.Recording? || pc.Checking?) && !Applied(w.rows, id))
  }

  /** A call for the approval between lp and the mark. */
  predicate InGap(w: World, k: WorkerId, id: ApprovalId) {
    k in w.workers && w.workers[k].id == id && Submitted(w.workers[k].pc)
  }

  predicate Threat(w: World, k: WorkerId, id: ApprovalId) {
    MayPrint(w, k, id) || InGap(w, k, id)
  }

  /** The step starts a call for the approval. */
  predicate Starts(w: World, step: Step, id: ApprovalId) {
    (step.Deliver? || (step.Replay? && Unapplied(w.rows, id))) && step.id == id && step.k !in w.workers
  }

  /** No other call for the approval can print any more or has just printed, or it is applied already. */
  ghost predicate Clear(w: World, id: ApprovalId) {
    Applied(w.rows, id) || forall k :: !Threat(w, k, id)
  }

  ghost predicate AllClear(env: ApprovalId -> Envelope, w: World, steps: seq<Step>, id: ApprovalId)
    decreases |steps|
  {
    steps == [] ||
    ((Starts(w, steps[0], id) ==> Clear(w, id)) && AllClear(env, Perform(env, w, steps[0]), steps[1..], id))
  }

  /** A caller that waits until no other call for the approval is in progress is on the safe side. */
  lemma AloneIsClear(w: World, id: ApprovalId)
    requires forall k :: k in w.workers && w.workers[k].id == id ==> !Active(w.workers[k].pc)
    ensures Clear(w, id)
  {
  }

  // ----- Counting what lp accepted -----

  ghost predicate Gap(w: World, id: ApprovalId) {
    exists k :: InGap(w, k, id)
  }

  ghost predicate OneThreat(w: World, id: ApprovalId) {
    forall k, l :: Threat(w, k, id) && Threat(w, l, id) ==> k == l
  }

  /** lp has accepted the document as often as it was lost to a crash, or once more; not yet while it still may be. */
  ghost predicate Counted(w: World, id: ApprovalId) {
    && w.lost[id] + (if Gap(w, id) then 1 else 0) <= w.printed[id] <= w.lost[id] + 1
    && ((exists k :: MayPrint(w, k, id)) ==> w.printed[id] <= w.lost[id])
    && (!Applied(w.rows, id) && !Gap(w, id) ==> w.printed[id] <= w.lost[id])
  }

  ghost predicate PrintInv(w: World, id: ApprovalId) {
    CallsRecorded(w) && OneThreat(w, id) && Counted(w, id)
  }

  // Where a turn of a call can lead.
  lemma MoveStage(env: ApprovalId -> Envelope, w: World, k: WorkerId, lpOk: bool)
    requires k in w.workers
    ensures var id, pc := w.workers[k].id, w.workers[k].pc;
            var pc' := AdvanceWorker(env, w, k, lpOk).workers[k].pc;
            && !pc'.Recording? && (pc'.Checking? ==> pc.Recording?)
            && (pc'.Claiming? || PastClaim(pc') ==>
                  pc.Claiming? || pc.Looking? || (pc.Recording? && id !in w.rows.approvals) || (pc.Checking? && Unapplied(w.rows, id)))
  {
    hide Record, Claim, MarkApplied, SetStatus, CanClaim, Guarded, Submitted;
  }

  lemma MoveGap(env: ApprovalId -> Envelope, w: World, k: WorkerId, lpOk: bool)
    requires k in w.workers
    ensures var pc, pc' := w.workers[k].pc, AdvanceWorker(env, w, k, lpOk).workers[k].pc;
            && (pc.Submitting? ==> (Submitted(pc') <==> lpOk))
            && (Submitted(pc') ==> Submitted(pc) || pc.Submitting?)
            && (Submitted(pc) ==> Submitted(pc') || pc.Settling?)
  {
    hide Record, Claim, MarkApplied, SetStatus, CanClaim, Guarded;
  }

  // What that means for the approval id.
  lemma MoveThreat(env: ApprovalId -> Envelope, w: World, k: WorkerId, lpOk: bool, id: ApprovalId)
    requires k in w.workers && CallsRecorded(w)
    ensures var w' := AdvanceWorker(env, w, k, lpOk);
            var prints := w.workers[k].id == id && w.workers[k].pc.Submitting? && lpOk;
            && (Applied(w.rows, id) ==> Applied(w'.rows, id))
            && (MayPrint(w', k, id) ==> MayPrint(w, k, id) && !prints)
            && (InGap(w', k, id) ==> InGap(w, k, id) || prints)
            && (InGap(w, k, id) && !InGap(w', k, id) ==> Applied(w'.rows, id))
            && (prints ==> MayPrint(w, k, id) && !InGap(w, k, id) && InGap(w', k, id))
  {
    MoveWorkers(env, w, k, lpOk);
    MoveRows(env, w, k, lpOk);
    MoveStage(env, w, k, lpOk);
    MoveGap(env, w, k, lpOk);
    AdvanceKeepsRecorded(env, w, k, lpOk);
    GrowthKeepsApplied(w.rows, AdvanceWorker(env, w, k, lpOk).rows);
    hide AdvanceWorker, RowsGrow, Record;
  }

  // The other calls stay as they are.
  lemma OthersStay(env: ApprovalId -> Envelope, w: World, k: WorkerId, lpOk: bool, id: ApprovalId)
    requires k in w.workers && CallsRecorded(w)
    ensures var w' := AdvanceWorker(env, w, k, lpOk);
            && (forall l :: l != k && MayPrint(w', l, id) ==> MayPrint(w, l, id))
            && (forall l :: l != k ==> (InGap(w', l, id) <==> InGap(w, l, id)))
  {
    MoveWorkers(env, w, k, lpOk);
    MoveThreat(env, w, k, lpOk, id);
    hide AdvanceWorker, Applied, Submitted, PastClaim;
  }

  lemma AdvanceKeepsPrintInv(env: ApprovalId -> Envelope, w: World, k: WorkerId, lpOk: bool, id: ApprovalId)
    requires PrintInv(w, id) && k in w.workers
    ensures PrintInv(AdvanceWorker(env, w, k, lpOk), id)
  {
    MoveWorkers(env, w, k, lpOk);
    MoveThreat(env, w, k, lpOk, id);
    OthersStay(env, w, k, lpOk, id);
    AdvanceKeepsRecorded(env, w, k, lpOk);
    hide AdvanceWorker, Applied, CallsRecorded, MayPrint, InGap;
    var w' := AdvanceWorker(env, w, k, lpOk);
    assert forall l :: Threat(w', l, id) ==> Threat(w, l, id);
    if w.workers[k].id == id && w.workers[k].pc.Submitting? && lpOk {
      assert Threat(w, k, id) && !InGap(w, k, id);
      assert !Gap(w, id) && Gap(w', id);
      assert forall l :: MayPrint(w', l, id) ==> Threat(w', l, id);
    } else {
      assert Gap(w', id) ==> Gap(w, id);
      if Gap(w, id) && !Applied(w'.rows, id) {
        var j :| InGap(w, j, id);
        assert InGap(w', j, id);
      }
    }
  }

  // A call ends: if lp had its document, that document is one lost to a crash.
  lemma DieKeepsPrintInv(env: ApprovalId -> Envelope, w: World, k: WorkerId, id: ApprovalId)
    requires PrintInv(w, id) && k in w.workers
    ensures PrintInv(Perform(env, w, Die(k)), id)
  {
    var w' := Perform(env, w, Die(k));
    StepKeepsRecorded(env, w, Die(k));
    assert forall l :: MayPrint(w', l, id) <==> l != k && MayPrint(w, l, id);
    assert forall l :: InGap(w', l, id) <==> l != k && InGap(w, l, id);
    assert w'.lost[id] == w.lost[id] + if InGap(w, k, id) then 1 else 0;
    hide MayPrint, InGap, CallsRecorded, Applied, Perform;
    assert forall l :: Threat(w', l, id) ==> Threat(w, l, id);
    assert forall l :: InGap(w, l, id) ==> Threat(w, l, id);
    if InGap(w, k, id) {
      assert Gap(w, id) && !Gap(w', id);
    } else if Gap(w, id) {
      var j :| InGap(w, j, id);
      assert InGap(w', j, id);
    }
  }

  // A call starts clear of the others, or the step does not concern the calls.
  lemma OtherStepKeepsPrintInv(env: ApprovalId -> Envelope, w: World, step: Step, id: ApprovalId)
    requires PrintInv(w, id) && (Starts(w, step, id) ==> Clear(w, id)) && !step.Advance? && !step.Die?
    ensures PrintInv(Perform(env, w, step), id)
  {
    var w' := Perform(env, w, step);
    StepKeepsRecorded(env, w, step);
    OtherStepThreats(env, w, step, id);
    hide MayPrint, InGap, CallsRecorded, Applied, Starts, Perform;
    assert forall l :: Threat(w', l, id) ==> Threat(w, l, id) || (Starts(w, step, id) && l == step.k && !Applied(w.rows, id));
    assert Gap(w', id) ==> Gap(w, id);
    if Gap(w, id) {
      var j :| InGap(w, j, id);
      assert Threat(w, j, id);
      assert InGap(w', j, id);
    }
  }

  lemma OtherStepThreats(env: ApprovalId -> Envelope, w: World, step: Step, id: ApprovalId)
    requires !step.Advance? && !step.Die?
    ensures var w' := Perform(env, w, step);
            && w'.printed == w.printed && w'.lost == w.lost && (Applied(w'.rows, id) <==> Applied(w.rows, id))
            && (forall l :: InGap(w', l, id) <==> InGap(w, l, id))
            && (forall l :: MayPrint(w', l, id) ==> MayPrint(w, l, id) || (Starts(w, step, id) && l == step.k && !Applied(w.rows, id)))
  {
    hide AdvanceWorker, Guarded;
  }

  /** Every step keeps the count, if calls start clear of the others. */
  lemma StepKeepsPrintInv(env: ApprovalId -> Envelope, w: World, step: Step, id: ApprovalId)
    requires PrintInv(w, id) && (Starts(w, step, id) ==> Clear(w, id))
    ensures PrintInv(Perform(env, w, step), id)
  {
    hide PrintInv, Starts, Clear, AdvanceWorker;
    if step.Advance? {
      if step.k in w.workers {
        AdvanceKeepsPrintInv(env, w, step.k, step.lpOk, id);
      }
    } else if step.Die? {
      if step.k in w.workers {
        DieKeepsPrintInv(env, w, step.k, id);
      }
    } else {
      OtherStepKeepsPrintInv(env, w, step, id);
    }
  }

  lemma {:induction false} RunKeepsPrintInv(env: ApprovalId -> Envelope, w: World, steps: seq<Step>, id: ApprovalId)
    requires PrintInv(w, id) && AllClear(env, w, steps, id)
    ensures PrintInv(Run(env, w, steps), id)
    decreases |steps|
  {
    hide PrintInv, Perform, Starts, Clear;
    if steps != [] {
      StepKeepsPrintInv(env, w, steps[0], id);
      RunKeepsPrintInv(env, Perform(env, w, steps[0]), steps[1..], id);
    }
  }

  lemma NothingPrinted(id: ApprovalId)
    ensures PrintInv(EMPTY_WORLD, id)
  {
  }

  /** If calls start clear of the others, lp accepts a document once for each such crash, and at most once more. */
  lemma PrintedOncePlusCrashes(env: ApprovalId -> Envelope, steps: seq<Step>, id: ApprovalId)
    requires AllClear(env, EMPTY_WORLD, steps, id)
    ensures var w := Run(env, EMPTY_WORLD, steps);
            w.lost[id] <= w.printed[id] <= 1 + w.lost[id]
  {
    NothingPrinted(id);
    RunKeepsPrintInv(env, EMPTY_WORLD, steps, id);
    hide Run, AllClear, Applied, Gap, CallsRecorded, MayPrint, OneThreat;
  }

  // ----- Exactly which overlaps are harmless -----

  /** Whatever happens from here on, as long as later calls start clear, a crash is behind every further print. */
  ghost predicate Bounded(env: ApprovalId -> Envelope, w: World, id: ApprovalId) {
    forall steps :: AllClear(env, w, steps, id) ==> Run(env, w, steps).printed[id] <= 1 + Run(env, w, steps).lost[id]
  }

  predicate NoStarts(steps: seq<Step>) {
    forall i :: 0 <= i < |steps| ==> !steps[i].Deliver? && !steps[i].Replay?
  }

  lemma {:induction false} NoStartsIsClear(env: ApprovalId -> Envelope, w: World, steps: seq<Step>, id: ApprovalId)
    requires NoStarts(steps)
    ensures AllClear(env, w, steps, id)
    decreases |steps|
  {
    hide Perform, Clear;
    if steps != [] {
      NoStartsIsClear(env, Perform(env, w, steps[0]), steps[1..], id);
    }
  }

  // The job's row is replaced by a fresh one that any approval can claim.
  lemma FreshRow(env: ApprovalId -> Envelope, w: World, job: JobId) returns (steps: seq<Step>, w': World)
    ensures NoStarts(steps) && w' == Run(env, w, steps)
    ensures w'.workers == w.workers && w'.rows.approvals == w.rows.approvals && w'.printed == w.printed && w'.lost == w.lost
    ensures job in w'.rows.jobs && w'.rows.jobs[job].finalizing == None
  {
    hide Run, AdvanceWorker;
    NoSteps(env, w);
    steps, w' := Then(env, w, [], Purge(job));
    steps, w' := Then(env, w, steps, Insert(job));
  }

  // A call that may print does.
  lemma Prints(env: ApprovalId -> Envelope, w: World, k: WorkerId, id: ApprovalId) returns (steps: seq<Step>, w': World)
    requires MayPrint(w, k, id) && CallsRecorded(w) && env(id).action.Print? && !Applied(w.rows, id) && CanClaim(w.rows, env(id).job, id)
    ensures NoStarts(steps) && w' == Run(env, w, steps)
    ensures k in w'.workers && w'.workers == w.workers[k := Worker(id, w'.workers[k].pc)] && CallsRecorded(w')
    ensures w'.printed[id] == w.printed[id] + 1 && w'.lost == w.lost && !Applied(w'.rows, id) && CanClaim(w'.rows, env(id).job, id)
  {
    assert Ready(env, w, k);
    hide Run, Ready, CanClaim, CallsRecorded, Applied;
    steps, w' := ToLp(env, w, k);
    RunKeepsRecorded(env, w, steps);
  }

  lemma {:induction false} RunKeepsRecorded(env: ApprovalId -> Envelope, w: World, steps: seq<Step>)
    requires CallsRecorded(w)
    ensures CallsRecorded(Run(env, w, steps))
    decreases |steps|
  {
    hide CallsRecorded, RowsGrow, Perform;
    if steps != [] {
      StepKeepsRecorded(env, w, steps[0]);
      RunKeepsRecorded(env, Perform(env, w, steps[0]), steps[1..]);
    }
  }

  // The call that was there and the one that starts both print.
  lemma BothPrint(env: ApprovalId -> Envelope, w: World, start: Step, k: WorkerId, id: ApprovalId) returns (steps: seq<Step>)
    requires PrintInv(w, id) && env(id).action.Print? && !Applied(w.rows, id)
    requires Starts(w, start, id) && Threat(w, k, id)
    ensures NoStarts(steps)
    ensures var w' := Run(env, Perform(env, w, start), steps);
            w'.printed[id] > 1 + w'.lost[id]
  {
    var w1 := Perform(env, w, start);
    StepKeepsRecorded(env, w, start);
    assert w1.workers == w.workers[start.k := w1.workers[start.k]] && MayPrint(w1, start.k, id) && k != start.k;
    assert w1.printed == w.printed && w1.lost == w.lost && !Applied(w1.rows, id);
    hide Run, Perform, CallsRecorded, Applied;
    var renewal, w2 := FreshRow(env, w1, env(id).job);
    RunKeepsRecorded(env, w1, renewal);
    var first: seq<Step>, w3 := [], w2;
    NoSteps(env, w2);
    if MayPrint(w, k, id) {
      first, w3 := Prints(env, w2, k, id);
    } else {
      assert InGap(w, k, id);
      assert Gap(w, id);
    }
    assert w3.printed[id] >= w3.lost[id] + 1;
    var second, w4 := Prints(env, w3, start.k, id);
    RunConcat(env, w1, renewal, first);
    RunConcat(env, w1, renewal + first, second);
    steps := renewal + first + second;
  }

  /**
   * In every world that calls starting clear have reached, one more call of a print is harmless
   * if and only if it starts clear, too.
   */
  lemma HarmlessExactlyWhenClear(env: ApprovalId -> Envelope, before: seq<Step>, start: Step, id: ApprovalId)
    requires AllClear(env, EMPTY_WORLD, before, id) && env(id).action.Print?
    requires Starts(Run(env, EMPTY_WORLD, before), start, id)
    ensures var w := Run(env, EMPTY_WORLD, before);
            Bounded(env, Perform(env, w, start), id) <==>
            Applied(w.rows, id) || forall k :: !Threat(w, k, id)
  {
    var w := Run(env, EMPTY_WORLD, before);
    var w1 := Perform(env, w, start);
    NothingPrinted(id);
    RunKeepsPrintInv(env, EMPTY_WORLD, before, id);
    hide Run, Perform, Threat, Starts, Applied;
    if Clear(w, id) {
      StepKeepsPrintInv(env, w, start, id);
      forall steps | AllClear(env, w1, steps, id)
        ensures Run(env, w1, steps).printed[id] <= 1 + Run(env, w1, steps).lost[id]
      {
        RunKeepsPrintInv(env, w1, steps, id);
      }
    } else {
      var k :| Threat(w, k, id);
      var steps := BothPrint(env, w, start, k, id);
      NoStartsIsClear(env, w1, steps, id);
    }
  }

  // ----- A run in which two deliveries overlap -----

  // Both deliveries get as far as the claim.
  lemma BothClaiming(env: ApprovalId -> Envelope, a: ApprovalId) returns (steps: seq<Step>, w: World)
    requires Guarded(env(a))
    ensures w == Run(env, EMPTY_WORLD, steps) && w.printed == multiset{} && w.lost == multiset{}
    ensures w.workers == map[0 := Worker(a, Claiming), 1 := Worker(a, Claiming)]
    ensures w.rows.jobs == map[env(a).job := Job(Pending, None)]
  {
    hide Run;
    NoSteps(env, EMPTY_WORLD);
    steps, w := Then(env, EMPTY_WORLD, [], Insert(env(a).job));
    steps, w := Then(env, EMPTY_WORLD, steps, Deliver(0, a));
    steps, w := Then(env, EMPTY_WORLD, steps, Deliver(1, a));
    assert w.workers == map[0 := Worker(a, Recording), 1 := Worker(a, Recording)];
    steps, w := Then(env, EMPTY_WORLD, steps, Advance(0, true));
    steps, w := Then(env, EMPTY_WORLD, steps, Advance(1, true));
    steps, w := Then(env, EMPTY_WORLD, steps, Advance(1, true));
  }

  // Both hold the claim and are about to call lp.
  lemma BothSubmitting(env: ApprovalId -> Envelope, a: ApprovalId) returns (steps: seq<Step>, w: World)
    requires Guarded(env(a))
    ensures w == Run(env, EMPTY_WORLD, steps) && w.printed == multiset{} && w.lost == multiset{}
    ensures w.workers == map[0 := Worker(a, Submitting(false)), 1 := Worker(a, Submitting(false))]
  {
    hide Run;
    steps, w := BothClaiming(env, a);
    steps, w := Then(env, EMPTY_WORLD, steps, Advance(0, true));
    steps, w := Then(env, EMPTY_WORLD, steps, Advance(1, true));
    assert w.workers == map[0 := Worker(a, Looking), 1 := Worker(a, Looking)];
    steps, w := Then(env, EMPTY_WORLD, steps, Advance(0, true));
    steps, w := Then(env, EMPTY_WORLD, steps, Advance(1, true));
  }

  /** Two overlapping deliveries of one approval print it twice without any crash. */
  lemma OverlapPrintsTwice(env: ApprovalId -> Envelope, a: ApprovalId) returns (steps: seq<Step>)
    requires Guarded(env(a))
    ensures Run(env, EMPTY_WORLD, steps).printed[a] == 2 && Run(env, EMPTY_WORLD, steps).lost == multiset{}
  {
    hide Run;
    var w;
    steps, w := BothSubmitting(env, a);
    steps, w := Then(env, EMPTY_WORLD, steps, Advance(0, true));
    steps, w := Then(env, EMPTY_WORLD, steps, Advance(1, true));
  }
}
