/**
 * The whole way of an approval: saved on the device, sent to the Pi or queued at the
 * relay, polled, applied and acknowledged, with lost replies and crashes on every side.
 */
module Delivery {
  import opened PiRows
  import opened PiMachine
  import opened Outbox

  /** The device's outbox in memory and on disk; saving writes the whole list at once. */
  datatype Device = Device(ram: seq<Entry>, disk: seq<Entry>)

  /**
   * The three stores, with two histories: the ids ever recorded at the relay, and the
   * approvals whose save completed, which the user may rely on.
   */
  datatype System = System(
    device: Device, relay: map<ApprovalId, bool>, pi: World,
    queued: set<ApprovalId>, promised: set<ApprovalId>)

  datatype Event =
    | Enqueue(e: Entry)                   // the user chooses; only memory changes
    | Save                                // the outbox is written
    | Reboot                              // the device loses its memory
    | CompactOutbox
    | PiReplies(k: WorkerId)              // the Pi's reply to a delivery reaches the device
    | SubmitToRelay(id: ApprovalId)       // the relay records it; its reply may be lost
    | RelayReplies(id: ApprovalId)        // the relay's "queued" reaches the device
    | Poll(k: WorkerId, id: ApprovalId)   // the Pi takes a pending envelope and applies it
    | Ack(k: WorkerId)                    // the Pi acknowledges a finished delivery
    | Prune(id: ApprovalId)               // the relay forgets a delivered envelope
    | PiStep(step: Step)                  // anything the Pi does, crashes and direct deliveries included

  const EMPTY_SYSTEM := System(Device([], []), map[], EMPTY_WORLD, {}, {})

  function Ids(s: seq<Entry>): set<ApprovalId> {
    set e | e in s :: e.id
  }

  /** The relay's INSERT OR IGNORE; false means not yet delivered. */
  function RelayRecord(relay: map<ApprovalId, bool>, id: ApprovalId): map<ApprovalId, bool> {
    if id in relay then relay else relay[id := false]
  }

  function Happen(env: ApprovalId -> Envelope, y: System, event: Event): System {
    match event
    case Enqueue(e) => y.(device := y.device.(ram := y.device.ram + [e.(synced := false)]))
    case Save => y.(device := y.device.(disk := y.device.ram), promised := y.promised + Ids(y.device.ram))
    case Reboot => y.(device := y.device.(ram := y.device.disk))
    case CompactOutbox => y.(device := y.device.(ram := Compact(y.device.ram)))
    case PiReplies(k) =>
      if k in y.pi.workers && y.pi.workers[k].pc.Done?
      then y.(device := y.device.(ram := Mark(y.device.ram, y.pi.workers[k].id)))
      else y
    case SubmitToRelay(id) => y.(relay := RelayRecord(y.relay, id), queued := y.queued + {id})
    case RelayReplies(id) =>
      if id in y.queued then y.(device := y.device.(ram := Mark(y.device.ram, id))) else y
    case Poll(k, id) =>
      if id in y.relay && !y.relay[id] then y.(pi := Perform(env, y.pi, Deliver(k, id))) else y
    case Ack(k) =>
      if k in y.pi.workers && y.pi.workers[k].pc.Done? && y.pi.workers[k].id in y.relay
      then y.(relay := y.relay[y.pi.workers[k].id := true])
      else y
    case Prune(id) => if id in y.relay && y.relay[id] then y.(relay := y.relay - {id}) else y
    case PiStep(step) => y.(pi := Perform(env, y.pi, step))
  }

  function History(env: ApprovalId -> Envelope, y: System, events: seq<Event>): System
    decreases |events|
  {
    if events == [] then y else History(env, Happen(env, y, events[0]), events[1..])
  }

  // ----- No promised approval is ever lost -----

  /** The list still has an entry to send for the approval. */
  predicate Unsent(s: seq<Entry>, id: ApprovalId) {
    exists i :: 0 <= i < |s| && s[i].id == id && !s[i].synced
  }

  /** The approval is queued at the relay and not delivered, or applied on the Pi. */
  predicate Safe(y: System, id: ApprovalId) {
    (id in y.relay && !y.relay[id]) || Applied(y.pi.rows, id)
  }

  predicate Kept(y: System, id: ApprovalId) {
    Unsent(y.device.disk, id) || Safe(y, id)
  }

  ghost predicate SyncedSafe(y: System, s: seq<Entry>) {
    forall i :: 0 <= i < |s| && s[i].synced ==> Safe(y, s[i].id)
  }

  ghost predicate KeptIn(y: System, s: seq<Entry>, ids: set<ApprovalId>) {
    SyncedSafe(y, s) && forall id | id in ids :: Unsent(s, id) || Safe(y, id)
  }

  ghost predicate RemoteInv(y: System) {
    && CallsRecorded(y.pi)
    && (forall id | id in y.relay :: y.relay[id] ==> Applied(y.pi.rows, id))
    && (forall id | id in y.queued :: Safe(y, id))
  }

  ghost predicate DeliveryInv(y: System) {
    && RemoteInv(y)
    && KeptIn(y, y.device.ram, y.promised)
    && KeptIn(y, y.device.disk, y.promised)
  }

  ghost predicate StillSafe(y: System, y': System) {
    forall id :: Safe(y, id) ==> Safe(y', id)
  }

  /** Events at the relay and on the Pi keep what is safe safe. */
  lemma RemoteEventKeepsSafe(env: ApprovalId -> Envelope, y: System, event: Event)
    requires RemoteInv(y)
    requires event.SubmitToRelay? || event.Poll? || event.Ack? || event.Prune? || event.PiStep?
    ensures RemoteInv(Happen(env, y, event)) && StillSafe(y, Happen(env, y, event))
    ensures Happen(env, y, event).device == y.device && Happen(env, y, event).promised == y.promised
  {
    hide Perform, CallsRecorded, Applied;
    if event.PiStep? {
      StepKeepsRecorded(env, y.pi, event.step);
      GrowthKeepsApplied(y.pi.rows, Happen(env, y, event).pi.rows);
    } else if event.Poll? {
      StepKeepsRecorded(env, y.pi, Deliver(event.k, event.id));
      GrowthKeepsApplied(y.pi.rows, Perform(env, y.pi, Deliver(event.k, event.id)).rows);
    } else if event.Ack? {
      DoneIsApplied(y.pi, event.k);
    }
  }

  lemma DoneIsApplied(w: World, k: WorkerId)
    requires CallsRecorded(w)
    ensures k in w.workers && w.workers[k].pc.Done? ==> Applied(w.rows, w.workers[k].id)
  {
  }

  lemma SaferStaysKept(y: System, y': System, s: seq<Entry>, ids: set<ApprovalId>)
    requires KeptIn(y, s, ids) && StillSafe(y, y')
    ensures KeptIn(y', s, ids)
  {
    hide Safe, Unsent;
  }

  // Marking a safe approval as synced.
  lemma MarkKeeps(y: System, s: seq<Entry>, ids: set<ApprovalId>, id: ApprovalId)
    requires KeptIn(y, s, ids) && Safe(y, id)
    ensures KeptIn(y, Mark(s, id), ids)
  {
    MarkFrame(s, id);
    hide Safe, Mark;
    forall x | x in ids && x != id && Unsent(s, x) ensures Unsent(Mark(s, id), x) {
      var i :| 0 <= i < |s| && s[i].id == x && !s[i].synced;
      assert Mark(s, id)[i] == s[i];
    }
  }

  lemma CompactKeeps(y: System, s: seq<Entry>, ids: set<ApprovalId>)
    requires KeptIn(y, s, ids)
    ensures KeptIn(y, Compact(s), ids)
  {
    hide Safe;
    forall i | 0 <= i < |Compact(s)| ensures !Compact(s)[i].synced {
      CompactKeepsUnsynced(s, Compact(s)[i]);
    }
    forall x | x in ids && Unsent(s, x) ensures Unsent(Compact(s), x) {
      var i :| 0 <= i < |s| && s[i].id == x && !s[i].synced;
      CompactKeepsUnsynced(s, s[i]);
      var j :| 0 <= j < |Compact(s)| && Compact(s)[j] == s[i];
    }
  }

  lemma AppendKeeps(y: System, s: seq<Entry>, ids: set<ApprovalId>, e: Entry)
    requires KeptIn(y, s, ids) && !e.synced
    ensures KeptIn(y, s + [e], ids)
  {
    hide Safe;
    forall x | x in ids && Unsent(s, x) ensures Unsent(s + [e], x) {
      var i :| 0 <= i < |s| && s[i].id == x && !s[i].synced;
      assert (s + [e])[i] == s[i];
    }
  }

  // Everything in a list is unsent there or safe, so saving it keeps every promise.
  lemma SaveKeeps(y: System, s: seq<Entry>, ids: set<ApprovalId>)
    requires KeptIn(y, s, ids)
    ensures KeptIn(y, s, ids + Ids(s))
  {
    hide Safe;
    forall x | x in Ids(s) ensures Unsent(s, x) || Safe(y, x) {
      var e :| e in s && e.id == x;
      var i :| 0 <= i < |s| && s[i] == e;
    }
  }

  lemma DeviceEventKeepsInv(env: ApprovalId -> Envelope, y: System, event: Event)
    requires DeliveryInv(y)
    requires event.Enqueue? || event.Save? || event.Reboot? || event.CompactOutbox? || event.PiReplies? || event.RelayReplies?
    ensures DeliveryInv(Happen(env, y, event))
  {
    hide Safe, Unsent, KeptIn, CallsRecorded, Applied;
    var y' := Happen(env, y, event);
    DoneSafe(y);
    var ram := y.device.ram;
    match event {
      case Enqueue(e) => AppendKeeps(y, ram, y.promised, e.(synced := false));
      case Save => SaveKeeps(y, ram, y.promised);
      case CompactOutbox => CompactKeeps(y, ram, y.promised);
      case PiReplies(k) =>
        if k in y.pi.workers && y.pi.workers[k].pc.Done? {
          MarkKeeps(y, ram, y.promised, y.pi.workers[k].id);
        }
      case RelayReplies(id) =>
        if id in y.queued {
          MarkKeeps(y, ram, y.promised, id);
        }
      case Reboot =>
    }
    SameRemote(y, y');
    SaferStaysKept(y, y', y'.device.ram, y'.promised);
    SaferStaysKept(y, y', y'.device.disk, y'.promised);
  }

  lemma SameRemote(y: System, y': System)
    requires y'.relay == y.relay && y'.pi == y.pi && y'.queued == y.queued && RemoteInv(y)
    ensures StillSafe(y, y') && RemoteInv(y')
  {
  }

  lemma DoneSafe(y: System)
    requires RemoteInv(y)
    ensures forall k | k in y.pi.workers && y.pi.workers[k].pc.Done? :: Safe(y, y.pi.workers[k].id)
  {
  }

  /** Every event keeps the invariant. */
  lemma EventKeepsInv(env: ApprovalId -> Envelope, y: System, event: Event)
    requires DeliveryInv(y)
    ensures DeliveryInv(Happen(env, y, event))
  {
    if event.SubmitToRelay? || event.Poll? || event.Ack? || event.Prune? || event.PiStep? {
      RemoteEventKeepsSafe(env, y, event);
      hide RemoteInv, KeptIn, StillSafe, Happen;
      SaferStaysKept(y, Happen(env, y, event), y.device.ram, y.promised);
      SaferStaysKept(y, Happen(env, y, event), y.device.disk, y.promised);
    } else {
      hide DeliveryInv, Happen;
      DeviceEventKeepsInv(env, y, event);
    }
  }

  lemma {:induction false} HistoryKeepsInv(env: ApprovalId -> Envelope, y: System, events: seq<Event>)
    requires DeliveryInv(y)
    ensures DeliveryInv(History(env, y, events))
    decreases |events|
  {
    hide DeliveryInv, Happen;
    if events != [] {
      EventKeepsInv(env, y, events[0]);
      HistoryKeepsInv(env, Happen(env, y, events[0]), events[1..]);
    }
  }

  /**
   * Every approval whose save completed is still to be sent from the device's disk, or
   * undelivered at the relay, or applied on the Pi, whatever has happened since.
   */
  lemma NoApprovalLost(env: ApprovalId -> Envelope, events: seq<Event>, id: ApprovalId)
    requires id in History(env, EMPTY_SYSTEM, events).promised
    ensures Kept(History(env, EMPTY_SYSTEM, events), id)
  {
    assert DeliveryInv(EMPTY_SYSTEM);
    HistoryKeepsInv(env, EMPTY_SYSTEM, events);
    hide History, Safe, Unsent;
  }

  /** An approval that is chosen and saved is promised, and still to be sent after a reboot. */
  lemma SavedIsPromised(env: ApprovalId -> Envelope, y: System, e: Entry)
    ensures var y' := History(env, y, [Enqueue(e), Save, Reboot]);
            && e.id in y'.promised && e.(synced := false) in y'.device.ram && Unsent(y'.device.disk, e.id)
  {
    hide Compact, Mark, Perform;
    var saved := y.device.ram + [e.(synced := false)];
    assert saved[|y.device.ram|] == e.(synced := false);
    assert [Enqueue(e), Save, Reboot][1..] == [Save, Reboot] && [Save, Reboot][1..] == [Reboot] && [Reboot][1..] == [];
    var y1 := Happen(env, y, Enqueue(e));
    var y2 := Happen(env, y1, Save);
    assert History(env, y, [Enqueue(e), Save, Reboot]) == History(env, y1, [Save, Reboot]) == History(env, y2, [Reboot]);
    assert History(env, y2, [Reboot]) == History(env, Happen(env, y2, Reboot), []);
  }

  // ----- A drain pass in these terms -----

  /** The event is a reply that confirms the approval to the device. */
  predicate ReplyFor(y: System, event: Event, id: ApprovalId) {
    || (event == RelayReplies(id) && id in y.queued)
    || (event.PiReplies? && event.k in y.pi.workers && y.pi.workers[event.k] == Worker(id, Done))
  }

  lemma {:induction false} RepliesMark(env: ApprovalId -> Envelope, y: System, replies: seq<Event>, ids: seq<ApprovalId>)
    requires |replies| == |ids| && forall i :: 0 <= i < |ids| ==> ReplyFor(y, replies[i], ids[i])
    ensures History(env, y, replies) == y.(device := y.device.(ram := MarkAll(y.device.ram, ids)))
    decreases |ids|
  {
    if ids != [] {
      var y' := y.(device := y.device.(ram := Mark(y.device.ram, ids[0])));
      assert Happen(env, y, replies[0]) == y';
      hide Happen, Mark;
      assert forall i :: 0 <= i < |ids| - 1 ==> ReplyFor(y', replies[1..][i], ids[1..][i]);
      RepliesMark(env, y', replies[1..], ids[1..]);
    }
  }

  lemma {:induction false} HistoryConcat(env: ApprovalId -> Envelope, y: System, a: seq<Event>, b: seq<Event>)
    ensures History(env, y, a + b) == History(env, History(env, y, a), b)
    decreases |a|
  {
    hide Happen;
    if a == [] {
      assert a + b == b;
    } else {
      assert (a + b)[0] == a[0] && (a + b)[1..] == a[1..] + b;
      HistoryConcat(env, Happen(env, y, a[0]), a[1..], b);
    }
  }

  /**
   * The outbox a drain pass leaves, in memory and on disk, is the one that its replies,
   * a compaction and a save leave in the system.
   */
  lemma DrainIsHistory(env: ApprovalId -> Envelope, y: System, replies: seq<Event>, ids: seq<ApprovalId>)
    requires |replies| == |ids| && forall i :: 0 <= i < |ids| ==> ReplyFor(y, replies[i], ids[i])
    ensures var left := Compact(MarkAll(y.device.ram, ids));
            History(env, y, replies + [CompactOutbox, Save]).device == Device(left, left)
  {
    RepliesMark(env, y, replies, ids);
    HistoryConcat(env, y, replies, [CompactOutbox, Save]);
    hide Compact, MarkAll, ReplyFor;
    var y1 := History(env, y, replies);
    assert [CompactOutbox, Save][1..] == [Save] && [Save][1..] == [];
    assert History(env, y1, [CompactOutbox, Save]) == Happen(env, Happen(env, y1, CompactOutbox), Save);
  }
}
