/**
 * The relay's rows, its two handlers, and the Pi's poll: fetch what is pending, apply each
 * envelope, acknowledge it only afterwards.
 */
module RelayServer {
  import opened PiRows
  import opened PiMachine
  import opened PiServer
  import opened Delivery

  /** A queued envelope; deliveredAt counts once it is delivered. */
  datatype Queued = Queued(env: Envelope, delivered: bool, deliveredAt: int)

  /** Which envelopes there are, and whether they are delivered. */
  function DeliveredOf(rows: map<ApprovalId, Queued>): map<ApprovalId, bool> {
    map id | id in rows :: rows[id].delivered
  }

  lemma KnownEnvelopes(rows: map<ApprovalId, Queued>)
    ensures DeliveredOf(rows).Keys == rows.Keys
  {
  }

  lemma NewIsUndelivered(rows: map<ApprovalId, Queued>, id: ApprovalId, e: Envelope)
    ensures DeliveredOf(rows[id := Queued(e, false, 0)]) == DeliveredOf(rows)[id := false]
  {
  }

  /** The envelopes not yet delivered, in the order they came. */
  function UndeliveredOf(received: seq<ApprovalId>, rows: map<ApprovalId, Queued>): seq<ApprovalId> {
    if received == [] then []
    else
      var last := received[|received| - 1];
      UndeliveredOf(received[..|received| - 1], rows) + (if last in rows && !rows[last].delivered then [last] else [])
  }

  lemma {:induction false} UndeliveredListed(received: seq<ApprovalId>, rows: map<ApprovalId, Queued>)
    requires forall i, j :: 0 <= i < j < |received| ==> received[i] != received[j]
    ensures var pending := UndeliveredOf(received, rows);
            && (forall id :: id in pending <==> id in received && id in rows && !rows[id].delivered)
            && (forall i, j :: 0 <= i < j < |pending| ==> pending[i] != pending[j] && Precedes(received, pending[i], pending[j]))
  {
    if received != [] {
      var front, last := received[..|received| - 1], received[|received| - 1];
      UndeliveredListed(front, rows);
      assert received == front + [last];
      var rest := UndeliveredOf(front, rows);
      assert last !in front;
      forall i | 0 <= i < |rest| ensures rest[i] != last && Precedes(received, rest[i], last) {
        assert rest[i] in rest;
        PrecedesLonger(front, last, rest[i], last);
      }
      forall i, j | 0 <= i < j < |rest| ensures Precedes(received, rest[i], rest[j]) {
        PrecedesLonger(front, last, rest[i], rest[j]);
      }
    }
  }

  class RelayDatabase {
    var rows: map<ApprovalId, Queued>
    var received: seq<ApprovalId>

    ghost predicate Valid()
      reads this
    {
      && (forall i, j :: 0 <= i < j < |received| ==> received[i] != received[j])
      && (forall id :: id in rows <==> id in received)
    }

    /** Which envelopes are there, and which of them are delivered. */
    function Delivered(): map<ApprovalId, bool>
      reads this
    {
      DeliveredOf(rows)
    }

    constructor ()
      ensures Valid() && rows == map[]
    {
      rows, received := map[], [];
    }

    method RecordApprovalIfNew(id: ApprovalId, e: Envelope) returns (isNew: bool)
      requires Valid()
      modifies this
      ensures Valid() && (isNew <==> id !in old(rows))
      ensures rows == if isNew then old(rows)[id := Queued(e, false, 0)] else old(rows)
      ensures Delivered() == RelayRecord(old(Delivered()), id)
    {
      hide DeliveredOf;
      isNew := id !in rows;
      KnownEnvelopes(rows);
      NewIsUndelivered(rows, id, e);
      if isNew {
        rows := rows[id := Queued(e, false, 0)];
        received := received + [id];
      }
    }

    /** The envelopes not yet delivered, in the order they came. */
    method ListPending() returns (pending: seq<ApprovalId>)
      requires Valid()
      ensures pending == UndeliveredOf(received, rows)
      ensures forall id :: id in pending <==> id in rows && !rows[id].delivered
      ensures forall i, j :: 0 <= i < j < |pending| ==> pending[i] != pending[j] && Precedes(received, pending[i], pending[j])
    {
      pending := [];
      for i := 0 to |received|
        invariant pending == UndeliveredOf(received[..i], rows)
      {
        assert received[..i + 1][..i] == received[..i];
        if !rows[received[i]].delivered {
          pending := pending + [received[i]];
        }
      }
      assert received[..|received|] == received;
      UndeliveredListed(received, rows);
    }

    method MarkDelivered(id: ApprovalId, now: int)
      requires Valid()
      modifies this`rows
      ensures Valid()
      ensures rows == if id in old(rows) then old(rows)[id := old(rows)[id].(delivered := true, deliveredAt := now)] else old(rows)
    {
      if id in rows {
        rows := rows[id := rows[id].(delivered := true, deliveredAt := now)];
      }
    }

    /** Forgets what was delivered before the cutoff, and nothing that was not delivered. */
    method PruneDeliveredOlderThan(cutoff: int) returns (removed: nat)
      requires Valid()
      modifies this
      ensures Valid() && removed == |old(received)| - |received|
      ensures rows == map id | id in old(rows) && !(old(rows)[id].delivered && old(rows)[id].deliveredAt < cutoff) :: old(rows)[id]
    {
      var kept, left: seq<ApprovalId> := map[], [];
      removed := 0;
      for i := 0 to |received|
        invariant rows == old(rows) && received == old(received)
        invariant |left| + removed == i
        invariant forall id :: id in left <==> id in received[..i] && id in rows && !(rows[id].delivered && rows[id].deliveredAt < cutoff)
        invariant forall id :: id in kept <==> id in left
        invariant forall id :: id in kept ==> id in rows && kept[id] == rows[id]
        invariant forall a, b :: 0 <= a < b < |left| ==> left[a] != left[b]
      {
        var id := received[i];
        assert id !in received[..i];
        if rows[id].delivered && rows[id].deliveredAt < cutoff {
          removed := removed + 1;
        } else {
          kept, left := kept[id := rows[id]], left + [id];
        }
        assert received[..i + 1] == received[..i] + [id];
      }
      assert received[..|received|] == received;
      rows, received := kept, left;
    }

    /** The submit handler: "queued", whether or not the envelope was there before. */
    method SubmitApproval(id: ApprovalId, e: Envelope)
      requires Valid()
      modifies this
      ensures Valid() && id in rows
      ensures forall x :: x in old(rows) ==> x in rows && rows[x] == old(rows)[x]
      ensures id !in old(rows) ==> rows[id] == Queued(e, false, 0)
      ensures rows.Keys == old(rows.Keys) + {id}
    {
      var _ := RecordApprovalIfNew(id, e);
    }

    /** The acknowledge handler; false when there is no such envelope. */
    method Ack(id: ApprovalId, now: int) returns (found: bool)
      requires Valid()
      modifies this`rows
      ensures Valid() && (found <==> id in old(rows))
      ensures rows == if found then old(rows)[id := old(rows)[id].(delivered := true, deliveredAt := now)] else old(rows)
    {
      found := id in rows;
      if found {
        MarkDelivered(id, now);
      }
    }
  }

  // ----- One turn of the poll in the whole system -----

  function OnPi(steps: seq<Step>): (events: seq<Event>)
    ensures |events| == |steps| && forall i :: 0 <= i < |steps| ==> events[i] == PiStep(steps[i])
  {
    seq(|steps|, i requires 0 <= i < |steps| => PiStep(steps[i]))
  }

  lemma {:induction false} PiStepsRun(env: ApprovalId -> Envelope, y: System, steps: seq<Step>)
    ensures History(env, y, OnPi(steps)) == y.(pi := Run(env, y.pi, steps))
    decreases |steps|
  {
    hide Perform;
    if steps != [] {
      assert OnPi(steps)[1..] == OnPi(steps[1..]);
      PiStepsRun(env, y.(pi := Perform(env, y.pi, steps[0])), steps[1..]);
    }
  }

  /** An envelope fetched, applied without interruption and, if that ended normally, acknowledged. */
  function EnvelopeEvents(k: WorkerId, id: ApprovalId, lpOk: bool, acks: bool): seq<Event> {
    [Poll(k, id)] + OnPi(Advances(k, lpOk, 7)) + (if acks then [Event.Ack(k)] else [])
  }

  /** What those events leave: the rows apply_approval leaves, and an acknowledgement only if it is applied. */
  lemma EnvelopeIsHistory(env: ApprovalId -> Envelope, y: System, k: WorkerId, id: ApprovalId, lpOk: bool, acks: bool)
    requires id in y.relay && !y.relay[id] && k !in y.pi.workers
    ensures var y' := History(env, y, EnvelopeEvents(k, id, lpOk, acks));
            var applied := ApplyResult(y.pi.rows, id, env(id), lpOk);
            && y'.pi.rows == applied.rows && y'.device == y.device && y'.promised == y.promised
            && y'.pi.workers.Keys == y.pi.workers.Keys + {k}
            && y'.relay == if acks && !applied.raised then y.relay[id := true] else y.relay
  {
    hide Perform, ApplyResult, Run, History, Happen, AdvanceWorker, EndsAs;
    var y1 := Happen(env, y, Poll(k, id));
    Polling(env, y, k, id);
    var steps, tail := Advances(k, lpOk, 7), if acks then [Event.Ack(k)] else [];
    var y2 := y1.(pi := Run(env, y1.pi, steps));
    ApplyIsRun(env, y.pi, k, id, lpOk);
    AdvancesKeepCalls(env, y1.pi, k, lpOk, 7);
    PiStepsRun(env, y1, steps);
    OneEvent(env, y, Poll(k, id));
    ThreeParts(env, y, [Poll(k, id)], OnPi(steps), tail);
    OneEvent(env, y2, Event.Ack(k));
    NoEvent(env, y2);
    Acking(env, y, y2, k, id, ApplyResult(y.pi.rows, id, env(id), lpOk));
  }

  lemma Polling(env: ApprovalId -> Envelope, y: System, k: WorkerId, id: ApprovalId)
    requires id in y.relay && !y.relay[id] && k !in y.pi.workers
    ensures Happen(env, y, Poll(k, id)) == y.(pi := Perform(env, y.pi, Deliver(k, id)))
    ensures k in Perform(env, y.pi, Deliver(k, id)).workers && Perform(env, y.pi, Deliver(k, id)).workers[k].id == id
    ensures Perform(env, y.pi, Deliver(k, id)).workers.Keys == y.pi.workers.Keys + {k}
  {
  }

  lemma ThreeParts(env: ApprovalId -> Envelope, y: System, a: seq<Event>, b: seq<Event>, c: seq<Event>)
    ensures History(env, y, a + b + c) == History(env, History(env, History(env, y, a), b), c)
  {
    HistoryConcat(env, y, a + b, c);
    HistoryConcat(env, y, a, b);
  }

  // What acknowledging an ended call does.
  lemma Acking(env: ApprovalId -> Envelope, y: System, y2: System, k: WorkerId, id: ApprovalId, applied: Finished)
    requires y2.relay == y.relay && id in y.relay
    requires var w1 := Perform(env, y.pi, Deliver(k, id));
             k in w1.workers && w1.workers[k].id == id && EndsAs(w1, k, applied, y2.pi)
    ensures Happen(env, y2, Event.Ack(k)) == if applied.raised then y2 else y2.(relay := y2.relay[id := true])
    ensures y2.pi.rows == applied.rows
  {
    hide Perform;
  }

  lemma OneEvent(env: ApprovalId -> Envelope, y: System, event: Event)
    ensures History(env, y, [event]) == Happen(env, y, event)
  {
    hide Happen;
    assert [event][1..] == [];
    NoEvent(env, Happen(env, y, event));
  }

  lemma NoEvent(env: ApprovalId -> Envelope, y: System)
    ensures History(env, y, []) == y
  {
  }

  // ----- The Pi's poll -----

  /** Applying the envelope raises: a device print, not applied before, of a job without a row. */
  predicate Refused(r: Rows, id: ApprovalId, e: Envelope) {
    !Applied(r, id) && Guarded(e) && e.job !in r.jobs
  }

  /** One acknowledgement at the relay. */
  function Acked(rows: map<ApprovalId, Queued>, id: ApprovalId, now: int): map<ApprovalId, Queued>
    requires id in rows
  {
    rows[id := rows[id].(delivered := true, deliveredAt := now)]
  }

  /** The relay's and the Pi's rows after a poll: every pending envelope is applied in turn and then acknowledged. */
  function PollResult(rows: map<ApprovalId, Queued>, r: Rows, pending: seq<ApprovalId>,
                      lpOk: ApprovalId -> bool, ackArrives: ApprovalId -> bool, now: int): (map<ApprovalId, Queued>, Rows)
    requires forall i :: 0 <= i < |pending| ==> pending[i] in rows
    decreases |pending|
  {
    if pending == [] then (rows, r)
    else
      var id := pending[0];
      var f := ApplyResult(r, id, rows[id].env, lpOk(id));
      var rows' := if !f.raised && ackArrives(id) then Acked(rows, id, now) else rows;
      PollResult(rows', f.rows, pending[1..], lpOk, ackArrives, now)
  }

  /** The events of a poll, whose calls take the numbers from k on. */
  function PollEvents(k: WorkerId, pending: seq<ApprovalId>, lpOk: ApprovalId -> bool, ackArrives: ApprovalId -> bool): seq<Event>
    decreases |pending|
  {
    if pending == [] then []
    else
      var id := pending[0];
      EnvelopeEvents(k, id, lpOk(id), ackArrives(id)) + PollEvents(k + 1, pending[1..], lpOk, ackArrives)
  }

  ghost predicate Fresh(w: World, k: WorkerId) {
    forall l :: l in w.workers ==> l < k
  }

  /** A whole poll is a history of the system: the same rows at the relay and on the Pi, the device untouched. */
  lemma {:induction false} PollIsHistory(env: ApprovalId -> Envelope, y: System, rows: map<ApprovalId, Queued>, k: WorkerId,
                                         pending: seq<ApprovalId>, lpOk: ApprovalId -> bool, ackArrives: ApprovalId -> bool, now: int)
    requires y.relay == DeliveredOf(rows) && Fresh(y.pi, k)
    requires forall id :: id in rows ==> rows[id].env == env(id)
    requires forall i :: 0 <= i < |pending| ==> pending[i] in rows && !rows[pending[i]].delivered
    requires forall i, j :: 0 <= i < j < |pending| ==> pending[i] != pending[j]
    ensures var y', left := History(env, y, PollEvents(k, pending, lpOk, ackArrives)), PollResult(rows, y.pi.rows, pending, lpOk, ackArrives, now);
            && y'.relay == DeliveredOf(left.0) && y'.pi.rows == left.1
            && y'.device == y.device && y'.promised == y.promised
    decreases |pending|
  {
    hide EnvelopeEvents, History, ApplyResult;
    if pending == [] {
      NoEvent(env, y);
    } else {
      var id := pending[0];
      var events := EnvelopeEvents(k, id, lpOk(id), ackArrives(id));
      var y1 := History(env, y, events);
      var f := ApplyResult(y.pi.rows, id, env(id), lpOk(id));
      var rows' := if !f.raised && ackArrives(id) then Acked(rows, id, now) else rows;
      EnvelopeIsHistory(env, y, k, id, lpOk(id), ackArrives(id));
      assert y1.relay == DeliveredOf(rows');
      PollIsHistory(env, y1, rows', k + 1, pending[1..], lpOk, ackArrives, now);
      HistoryConcat(env, y, events, PollEvents(k + 1, pending[1..], lpOk, ackArrives));
    }
  }

  // What applying one approval changes, whichever way it ends.
  lemma ApplyKeeps(r: Rows, id: ApprovalId, e: Envelope, lpOk: bool)
    ensures (var f := FinishResult(Record(r, id, e), id, e, lpOk);
             && f.rows.jobs.Keys == r.jobs.Keys
             && (forall x :: x != id ==> (Applied(f.rows, x) <==> Applied(r, x)))
             && (!Applied(r, id) ==> (f.raised <==> Refused(r, id, e))))
  {
    FinishKeepsRows(Record(r, id, e), id, e, lpOk);
    hide FinishResult, Guarded;
  }

  /** A recorded approval that raised is still not applied. */
  lemma RaisedNotApplied(r: Rows, id: ApprovalId, e: Envelope, lpOk: bool)
    requires Refused(r, id, e)
    ensures !Applied(FinishResult(Record(r, id, e), id, e, lpOk).rows, id)
  {
  }

  /** One approval applied for the poll: its own row and no other, by the same rule. */
  method ApplyRelayed(db: Database, id: ApprovalId, e: Envelope, lpOk: bool) returns (raised: bool)
    requires db.Valid()
    modifies db
    ensures db.Valid() && db.jobs.Keys == old(db.jobs.Keys)
    ensures db.Contents() == ApplyResult(old(db.Contents()), id, e, lpOk).rows
    ensures raised <==> Refused(old(db.Contents()), id, e)
    ensures raised <==> ApplyResult(old(db.Contents()), id, e, lpOk).raised
    ensures Applied(db.Contents(), id) <==> !raised
    ensures forall x :: x != id ==> (Applied(db.Contents(), x) <==> Applied(old(db.Contents()), x))
  {
    hide FinishResult, Guarded, Record, CarriedOut;
    ApplyKeeps(db.Contents(), id, e, lpOk);
    if Refused(db.Contents(), id, e) {
      RaisedNotApplied(db.Contents(), id, e, lpOk);
    }
    var reply, _ := ApplyApproval(db, id, e, lpOk);
    raised := reply.RaisedInstead?;
  }

  /** After the envelopes seen so far: those done are applied, and delivered if acknowledged. */
  ghost predicate Polled(was: map<ApprovalId, Queued>, rows: map<ApprovalId, Queued>, r: Rows, r': Rows,
                         seen: seq<ApprovalId>, done: set<ApprovalId>, ackArrives: ApprovalId -> bool) {
    && rows.Keys == was.Keys && r'.jobs.Keys == r.jobs.Keys
    && (forall id :: id in done <==> id in seen && id in was && !Refused(r, id, was[id].env))
    && (forall id :: Applied(r', id) <==> if id in seen then id in done else Applied(r, id))
    && (forall id :: id in was ==> rows[id].env == was[id].env)
    && (forall id :: id in was ==> (rows[id].delivered <==> was[id].delivered || (id in done && ackArrives(id))))
  }

  /** The relay's rows once the acknowledgement, if any, has arrived. */
  ghost predicate Acknowledged(rows: map<ApprovalId, Queued>, rows': map<ApprovalId, Queued>, id: ApprovalId, now: int, acked: bool) {
    rows' == if acked && id in rows then rows[id := rows[id].(delivered := true, deliveredAt := now)] else rows
  }

  lemma PolledOneMore(was: map<ApprovalId, Queued>, rows: map<ApprovalId, Queued>, rows': map<ApprovalId, Queued>,
                      r: Rows, r1: Rows, r2: Rows, seen: seq<ApprovalId>, done: set<ApprovalId>,
                      ackArrives: ApprovalId -> bool, id: ApprovalId, now: int, raised: bool)
    requires Polled(was, rows, r, r1, seen, done, ackArrives) && id !in seen && id in was
    requires r2.jobs.Keys == r.jobs.Keys
    requires raised <==> Refused(r, id, was[id].env)
    requires Applied(r2, id) <==> !raised
    requires forall x :: x != id ==> (Applied(r2, x) <==> Applied(r1, x))
    requires Acknowledged(rows, rows', id, now, !raised && ackArrives(id))
    ensures Polled(was, rows', r, r2, seen + [id], if raised then done else done + {id}, ackArrives)
  {
    hide Refused, Applied;
  }

  /**
   * One poll, undisturbed: every pending envelope is applied unless applying it raises; an
   * envelope becomes delivered only when it is applied, and does when its acknowledgement arrives.
   */
  method PollOnce(relay: RelayDatabase, db: Database, lpOk: ApprovalId -> bool, ackArrives: ApprovalId -> bool, now: int)
    returns (applied: nat)
    requires relay.Valid() && db.Valid()
    modifies relay`rows, db
    ensures relay.Valid() && db.Valid() && relay.rows.Keys == old(relay.rows.Keys)
    ensures forall id :: id in UndeliveredOf(old(relay.received), old(relay.rows)) ==> id in old(relay.rows)
    ensures (relay.rows, db.Contents())
         == PollResult(old(relay.rows), old(db.Contents()), UndeliveredOf(old(relay.received), old(relay.rows)), lpOk, ackArrives, now)
    ensures forall id :: id in old(relay.rows) && !old(relay.rows)[id].delivered ==>
              (Applied(db.Contents(), id) <==> !Refused(old(db.Contents()), id, old(relay.rows)[id].env))
    ensures forall id :: id in old(relay.rows) ==>
              (relay.rows[id].delivered <==> old(relay.rows)[id].delivered || (Applied(db.Contents(), id) && ackArrives(id)))
    ensures applied == |set id | id in old(relay.rows) && !old(relay.rows)[id].delivered
                                 && !Refused(old(db.Contents()), id, old(relay.rows)[id].env)|
  {
    hide Refused, Applied, Polled, UndeliveredOf, ApplyResult, PollResult, Precedes;
    var pending := relay.ListPending();
    ghost var was, r := relay.rows, db.Contents();
    ghost var done: set<ApprovalId> := {};
    applied := 0;
    NothingPolled(was, r, ackArrives);
    for i := 0 to |pending|
      invariant relay.Valid() && db.Valid() && relay.rows.Keys == was.Keys
      invariant applied == |done|
      invariant PollResult(relay.rows, db.Contents(), pending[i..], lpOk, ackArrives, now)
             == PollResult(was, r, pending, lpOk, ackArrives, now)
      invariant forall id :: id in done ==> id in pending[..i]
      invariant Polled(was, relay.rows, r, db.Contents(), pending[..i], done, ackArrives)
    {
      var id := pending[i];
      assert id in pending && id !in pending[..i];
      assert pending[..i + 1] == pending[..i] + [id];
      OneMorePolled(relay.rows, db.Contents(), pending, i, lpOk, ackArrives, now);
      NotYetSeen(was, relay.rows, r, db.Contents(), pending[..i], done, ackArrives, id);
      ghost var rows, r1 := relay.rows, db.Contents();
      var raised := ApplyRelayed(db, id, relay.rows[id].env, lpOk(id));
      if !raised {
        applied := applied + 1;
        if ackArrives(id) {
          var _ := relay.Ack(id, now);
        }
      }
      PolledOneMore(was, rows, relay.rows, r, r1, db.Contents(), pending[..i], done, ackArrives, id, now, raised);
      done := if raised then done else done + {id};
    }
    assert pending[..|pending|] == pending;
    AllPolledResult(relay.rows, db.Contents(), lpOk, ackArrives, now);
    AllPolled(was, relay.rows, r, db.Contents(), pending, done, ackArrives);
  }

  lemma OneMorePolled(rows: map<ApprovalId, Queued>, r: Rows, pending: seq<ApprovalId>, i: nat,
                      lpOk: ApprovalId -> bool, ackArrives: ApprovalId -> bool, now: int)
    requires i < |pending| && forall j :: 0 <= j < |pending| ==> pending[j] in rows
    ensures var id := pending[i];
            var f := ApplyResult(r, id, rows[id].env, lpOk(id));
            var rows' := if !f.raised && ackArrives(id) then Acked(rows, id, now) else rows;
            PollResult(rows, r, pending[i..], lpOk, ackArrives, now) == PollResult(rows', f.rows, pending[i + 1..], lpOk, ackArrives, now)
  {
    hide ApplyResult;
    assert pending[i..][0] == pending[i] && pending[i..][1..] == pending[i + 1..];
  }

  lemma AllPolledResult(rows: map<ApprovalId, Queued>, r: Rows, lpOk: ApprovalId -> bool, ackArrives: ApprovalId -> bool, now: int)
    ensures PollResult(rows, r, [], lpOk, ackArrives, now) == (rows, r)
  {
  }

  lemma NothingPolled(was: map<ApprovalId, Queued>, r: Rows, ackArrives: ApprovalId -> bool)
    ensures Polled(was, was, r, r, [], {}, ackArrives)
  {
    hide Refused, Applied;
  }

  lemma NotYetSeen(was: map<ApprovalId, Queued>, rows: map<ApprovalId, Queued>, r: Rows, r': Rows,
                   seen: seq<ApprovalId>, done: set<ApprovalId>, ackArrives: ApprovalId -> bool, id: ApprovalId)
    requires Polled(was, rows, r, r', seen, done, ackArrives) && id !in seen && id in was
    ensures id in rows && rows[id].env == was[id].env && r'.jobs.Keys == r.jobs.Keys
    ensures Refused(r', id, was[id].env) <==> Refused(r, id, was[id].env)
  {
    hide Applied, Guarded;
  }

  lemma AllPolled(was: map<ApprovalId, Queued>, rows: map<ApprovalId, Queued>, r: Rows, r': Rows,
                  pending: seq<ApprovalId>, done: set<ApprovalId>, ackArrives: ApprovalId -> bool)
    requires Polled(was, rows, r, r', pending, done, ackArrives)
    requires forall id :: id in pending <==> id in was && !was[id].delivered
    ensures rows.Keys == was.Keys
    ensures forall id :: id in was && !was[id].delivered ==> (Applied(r', id) <==> !Refused(r, id, was[id].env))
    ensures forall id :: id in was ==> (rows[id].delivered <==> was[id].delivered || (Applied(r', id) && ackArrives(id)))
    ensures |done| == |set id | id in was && !was[id].delivered && !Refused(r, id, was[id].env)|
  {
    hide Refused, Applied;
    assert done == set id | id in was && !was[id].delivered && !Refused(r, id, was[id].env);
  }
}
