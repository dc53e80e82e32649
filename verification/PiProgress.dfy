/**
 * A call that is left alone gets to lp: what other runs are continued with.
 */
module PiProgress {
  import opened Options
  import opened PiRows
  import opened PiMachine

  /** How many turns a call of a print is away from lp, which has its document after the last. */
  function Turns(pc: Pc): (n: nat) {
    match pc
    case Recording => 5
    case Checking => 4
    case Claiming => 3
    case Looking => 2
    case Submitting(_) => 1
    case _ => 0
  }

  /** A call of a print on its way to lp that no claim and no mark can stop. */
  predicate Ready(env: ApprovalId -> Envelope, w: World, k: WorkerId) {
    k in w.workers && Turns(w.workers[k].pc) > 0 &&
    var id := w.workers[k].id;
    env(id).action.Print? && CanClaim(w.rows, env(id).job, id) &&
    (w.workers[k].pc.Recording? ==> !Applied(w.rows, id)) && (w.workers[k].pc.Checking? ==> Unapplied(w.rows, id))
  }

  /** Nothing but calls that go on: none starts, and no row is inserted. */
  predicate Continues(steps: seq<Step>) {
    forall i :: 0 <= i < |steps| ==> steps[i].Advance?
  }

  // One turn: nearer to lp, or at it.
  lemma ReadyTurn(env: ApprovalId -> Envelope, w: World, k: WorkerId)
    requires Ready(env, w, k)
    ensures var w' := Perform(env, w, Advance(k, true));
            var id := w.workers[k].id;
            && k in w'.workers && w'.workers == w.workers[k := Worker(id, w'.workers[k].pc)]
            && w'.lost == w.lost && CanClaim(w'.rows, env(id).job, id) && (!Applied(w.rows, id) ==> !Applied(w'.rows, id))
            && (PastClaim(w.workers[k].pc) ==> w'.rows == w.rows)
            && if w.workers[k].pc.Submitting? then Submitted(w'.workers[k].pc) && w'.printed == w.printed + multiset{id} && w'.reached == w.reached + {id}
               else Ready(env, w', k) && Turns(w'.workers[k].pc) < Turns(w.workers[k].pc) && w'.printed == w.printed && w'.reached == w.reached
                    && (PastClaim(w.workers[k].pc) ==> PastClaim(w'.workers[k].pc))
  {
  }

  /** Left alone, a ready call has lp print its document. */
  lemma {:induction false} ToLp(env: ApprovalId -> Envelope, w: World, k: WorkerId) returns (steps: seq<Step>, w': World)
    requires Ready(env, w, k)
    ensures Continues(steps) && w' == Run(env, w, steps)
    ensures var id := w.workers[k].id;
            && k in w'.workers && w'.workers == w.workers[k := Worker(id, w'.workers[k].pc)] && Submitted(w'.workers[k].pc)
            && w'.printed == w.printed + multiset{id} && w'.reached == w.reached + {id} && w'.lost == w.lost
            && CanClaim(w'.rows, env(id).job, id) && (!Applied(w.rows, id) ==> !Applied(w'.rows, id))
            && (PastClaim(w.workers[k].pc) ==> w'.rows == w.rows)
    decreases Turns(w.workers[k].pc)
  {
    assert k in w.workers;
    hide Run, Perform, Ready, CanClaim, Applied, Submitted, PastClaim, Turns;
    ReadyTurn(env, w, k);
    var step := Advance(k, true);
    var rest: seq<Step> := [];
    w' := Perform(env, w, step);
    NoSteps(env, w');
    if !w.workers[k].pc.Submitting? {
      rest, w' := ToLp(env, w', k);
    }
    steps := [step] + rest;
    FirstStep(env, w, step, rest);
  }
}
