/**
 * The device's durable approval outbox: a fixed array edited in place, how the user's
 * choices get into it, and how a sync pass drains it.
 */
module Outbox {
  import opened PiRows

  const MAX_ENTRIES: nat := 32
  const MAX_JOBS: nat := 64

  datatype Entry = Entry(id: ApprovalId, job: JobId, action: Action, createdAt: int, synced: bool)

  datatype InboxStatus = Downloaded | ApprovedPrint | ApprovedKeep | ApprovedDelete

  datatype InboxJob = InboxJob(job: JobId, status: InboxStatus, originalPending: bool)

  // ----- What the operations mean on the list of entries -----

  /** The first entry with that id becomes synced. */
  function Mark(s: seq<Entry>, id: ApprovalId): (r: seq<Entry>)
    ensures |r| == |s|
  {
    if s == [] then []
    else if s[0].id == id then [s[0].(synced := true)] + s[1..]
    else [s[0]] + Mark(s[1..], id)
  }

  function MarkAll(s: seq<Entry>, ids: seq<ApprovalId>): (r: seq<Entry>)
    ensures |r| == |s|
    decreases |ids|
  {
    if ids == [] then s else MarkAll(Mark(s, ids[0]), ids[1..])
  }

  /** Only the entries that still have to be sent, in order. */
  function Compact(s: seq<Entry>): (r: seq<Entry>)
    ensures |r| <= |s|
  {
    if s == [] then []
    else (if s[0].synced then [] else [s[0]]) + Compact(s[1..])
  }

  predicate PendingFor(s: seq<Entry>, job: JobId) {
    exists i :: 0 <= i < |s| && !s[i].synced && s[i].job == job
  }

  lemma {:induction false} CompactConcat(a: seq<Entry>, b: seq<Entry>)
    ensures Compact(a + b) == Compact(a) + Compact(b)
  {
    if a == [] {
      assert a + b == b;
    } else {
      assert (a + b)[0] == a[0] && (a + b)[1..] == a[1..] + b;
      CompactConcat(a[1..], b);
    }
  }

  lemma CompactSnoc(s: seq<Entry>, e: Entry)
    ensures Compact(s + [e]) == Compact(s) + (if e.synced then [] else [e])
  {
    CompactConcat(s, [e]);
    assert [e][1..] == [];
  }

  lemma CompactNone()
    ensures Compact([]) == []
  {
  }

  /** Compaction drops no unsynced entry and keeps no synced one. */
  lemma {:induction false} CompactKeepsUnsynced(s: seq<Entry>, e: Entry)
    ensures e in Compact(s) <==> e in s && !e.synced
  {
    if s != [] {
      CompactKeepsUnsynced(s[1..], e);
      assert s == [s[0]] + s[1..];
    }
  }

  lemma {:induction false} MarkAt(s: seq<Entry>, id: ApprovalId, i: nat)
    requires i <= |s| && forall k :: 0 <= k < i ==> s[k].id != id
    requires i < |s| ==> s[i].id == id
    ensures Mark(s, id) == if i < |s| then s[i := s[i].(synced := true)] else s
  {
    if i > 0 {
      MarkAt(s[1..], id, i - 1);
      assert i < |s| ==> s[i := s[i].(synced := true)] == [s[0]] + s[1..][i - 1 := s[i].(synced := true)];
    }
  }

  lemma {:induction false} MarkAllConcat(s: seq<Entry>, a: seq<ApprovalId>, b: seq<ApprovalId>)
    ensures MarkAll(s, a + b) == MarkAll(MarkAll(s, a), b)
    decreases |a|
  {
    if a == [] {
      assert a + b == b;
    } else {
      assert (a + b)[0] == a[0] && (a + b)[1..] == a[1..] + b;
      MarkAllConcat(Mark(s, a[0]), a[1..], b);
    }
  }

  lemma {:induction false} MarkFrame(s: seq<Entry>, id: ApprovalId)
    ensures forall i :: 0 <= i < |s| ==>
              && Mark(s, id)[i].(synced := s[i].synced) == s[i]
              && (s[i].synced ==> Mark(s, id)[i].synced)
              && (s[i].id != id ==> Mark(s, id)[i] == s[i])
  {
    if s != [] {
      MarkFrame(s[1..], id);
    }
  }

  // ----- The outbox in place -----

  class ApprovalOutbox {
    const entries: array<Entry>
    var count: nat

    ghost predicate Valid()
      reads this
    {
      entries.Length == MAX_ENTRIES && count <= MAX_ENTRIES
    }

    ghost function Contents(): seq<Entry>
      reads this, entries
      requires Valid()
    {
      entries[..count]
    }

    constructor ()
      ensures Valid() && fresh(entries) && Contents() == []
    {
      entries := new Entry[MAX_ENTRIES](i => Entry("", "", Keep, 0, false));
      count := 0;
    }

    method Append(e: Entry) returns (ok: bool)
      requires Valid()
      modifies this, entries
      ensures Valid() && (ok <==> |old(Contents())| < MAX_ENTRIES)
      ensures Contents() == if ok then old(Contents()) + [e] else old(Contents())
    {
      if count >= MAX_ENTRIES {
        return false;
      }
      entries[count] := e;
      count := count + 1;
      ok := true;
    }

    method HasPendingForJob(job: JobId) returns (pending: bool)
      requires Valid()
      ensures pending <==> PendingFor(Contents(), job)
    {
      for i := 0 to count
        invariant forall k :: 0 <= k < i ==> entries[k].synced || entries[k].job != job
      {
        if !entries[i].synced && entries[i].job == job {
          assert Contents()[i] == entries[i];
          return true;
        }
      }
      return false;
    }

    method MarkSynced(id: ApprovalId) returns (found: bool)
      requires Valid()
      modifies entries
      ensures Valid() && Contents() == Mark(old(Contents()), id)
      ensures found <==> exists i :: 0 <= i < |old(Contents())| && old(Contents())[i].id == id
    {
      for i := 0 to count
        invariant forall k :: 0 <= k < i ==> entries[k].id != id
        invariant entries[..] == old(entries[..])
      {
        if entries[i].id == id {
          assert old(Contents())[i].id == id;
          MarkAt(Contents(), id, i);
          entries[i] := entries[i].(synced := true);
          assert Contents() == Mark(old(Contents()), id);
          return true;
        }
      }
      MarkAt(Contents(), id, count);
      found := false;
    }

    /** Squeezes the synced entries out of the array, in place and in order. */
    method CompactSynced() returns (removed: nat)
      requires Valid()
      modifies this, entries
      ensures Valid() && Contents() == Compact(old(Contents()))
      ensures removed == |old(Contents())| - |Contents()|
    {
      hide Compact;
      assert Compact([]) == [] by { CompactNone(); }
      ghost var was := Contents();
      var writeIdx := 0;
      removed := 0;
      for readIdx := 0 to count
        invariant 0 <= writeIdx <= readIdx <= count && count == old(count)
        invariant removed == readIdx - writeIdx
        invariant entries[..writeIdx] == Compact(was[..readIdx])
        invariant forall k :: readIdx <= k < count ==> entries[k] == was[k]
      {
        assert was[..readIdx + 1] == was[..readIdx] + [was[readIdx]];
        CompactSnoc(was[..readIdx], was[readIdx]);
        if entries[readIdx].synced {
          removed := removed + 1;
        } else {
          if writeIdx != readIdx {
            entries[writeIdx] := entries[readIdx];
          }
          writeIdx := writeIdx + 1;
        }
      }
      assert was[..count] == was;
      count := writeIdx;
    }
  }

  // ----- Enqueueing a choice -----

  /** No job has two approvals waiting to be sent. */
  predicate OnePendingPerJob(s: seq<Entry>) {
    forall i, j :: 0 <= i < j < |s| && !s[i].synced && !s[j].synced ==> s[i].job != s[j].job
  }

  datatype EnqueueResult = Ok | UnknownJob | AlreadyPending | OutboxFull

  function StatusFor(a: Action): InboxStatus {
    match a
    case Print => ApprovedPrint
    case Keep => ApprovedKeep
    case Delete => ApprovedDelete
  }

  /** One entry of the job has the new status, and nothing else changed. */
  predicate StatusSet(was: seq<InboxJob>, now: seq<InboxJob>, job: JobId, status: InboxStatus) {
    exists k :: 0 <= k < |was| && was[k].job == job && now == was[k := was[k].(status := status)]
  }

  /** The inbox: a fixed array of jobs, searched front to back. */
  class JobIndex {
    const jobs: array<InboxJob>
    var count: nat

    ghost predicate Valid()
      reads this
    {
      jobs.Length == MAX_JOBS && count <= MAX_JOBS
    }

    ghost function Contents(): seq<InboxJob>
      reads this, jobs
      requires Valid()
    {
      jobs[..count]
    }

    constructor ()
      ensures Valid() && fresh(jobs) && Contents() == []
    {
      jobs := new InboxJob[MAX_JOBS](i => InboxJob("", Downloaded, false));
      count := 0;
    }

    /** The place of the first entry for the job, or count when there is none. */
    method Find(job: JobId) returns (i: nat)
      requires Valid()
      ensures i <= count
      ensures i < count ==> jobs[i].job == job
      ensures forall k :: 0 <= k < i ==> jobs[k].job != job
    {
      i := 0;
      while i < count
        invariant i <= count
        invariant forall k :: 0 <= k < i ==> jobs[k].job != job
      {
        if jobs[i].job == job {
          return;
        }
        i := i + 1;
      }
    }
  }

  /** Queues an approval and shows its choice in the inbox, or says why not and changes nothing. */
  method EnqueueApproval(inbox: JobIndex, outbox: ApprovalOutbox, job: JobId, action: Action,
                         id: ApprovalId, createdAt: int) returns (r: EnqueueResult)
    requires inbox.Valid() && outbox.Valid()
    modifies outbox, outbox.entries, inbox.jobs
    ensures inbox.Valid() && outbox.Valid()
    ensures r.UnknownJob? <==> forall k :: 0 <= k < |old(inbox.Contents())| ==> old(inbox.Contents())[k].job != job
    ensures r.AlreadyPending? || r.OutboxFull? || r.Ok? ==> (r.AlreadyPending? <==> PendingFor(old(outbox.Contents()), job))
    ensures r.OutboxFull? || r.Ok? ==> (r.OutboxFull? <==> |old(outbox.Contents())| == 32)
    ensures r.Ok? ==> outbox.Contents() == old(outbox.Contents()) + [Entry(id, job, action, createdAt, false)]
    ensures r.Ok? ==> StatusSet(old(inbox.Contents()), inbox.Contents(), job,
                                match action case Print => ApprovedPrint case Keep => ApprovedKeep case Delete => ApprovedDelete)
    ensures !r.Ok? ==> outbox.Contents() == old(outbox.Contents()) && inbox.Contents() == old(inbox.Contents())
    ensures old(OnePendingPerJob(outbox.Contents())) ==> OnePendingPerJob(outbox.Contents())
  {
    var k := inbox.Find(job);
    if k == inbox.count {
      return UnknownJob;
    }
    assert inbox.Contents()[k].job == job;
    var pending := outbox.HasPendingForJob(job);
    if pending {
      return AlreadyPending;
    }
    if outbox.count >= MAX_ENTRIES {
      return OutboxFull;
    }
    var ok := outbox.Append(Entry(id, job, action, createdAt, false));
    ghost var was := inbox.Contents();
    inbox.jobs[k] := inbox.jobs[k].(status := StatusFor(action));
    assert inbox.Contents() == was[k := was[k].(status := StatusFor(action))];
    r := Ok;
  }

  // ----- Draining -----

  /** The original of a locally created job has not reached the Pi yet. */
  predicate Waiting(inbox: seq<InboxJob>, job: JobId) {
    exists k :: 0 <= k < |inbox| && inbox[k].job == job && inbox[k].originalPending
                && forall l :: 0 <= l < k ==> inbox[l].job != job
  }

  method MustWait(inbox: JobIndex, job: JobId) returns (wait: bool)
    requires inbox.Valid()
    ensures wait <==> Waiting(inbox.Contents(), job)
  {
    var j := inbox.Find(job);
    wait := j < inbox.count && inbox.jobs[j].originalPending;
    assert forall k :: 0 <= k < inbox.count ==> inbox.Contents()[k] == inbox.jobs[k];
  }

  /** The entries a pass sends: unsynced, and not waiting for their original. */
  predicate Sendable(inbox: seq<InboxJob>, e: Entry) {
    !e.synced && !Waiting(inbox, e.job)
  }

  /** The id belongs to an entry that could be sent, and the far side confirmed it. */
  predicate SentAndConfirmed(inbox: seq<InboxJob>, s: seq<Entry>, confirms: ApprovalId -> bool, id: ApprovalId) {
    confirms(id) && exists i :: 0 <= i < |s| && s[i].id == id && Sendable(inbox, s[i])
  }

  // Marking changes only the flags of the marked ids.
  predicate MarkedOnly(was: seq<Entry>, now: seq<Entry>, ids: seq<ApprovalId>) {
    |now| == |was| && forall k :: 0 <= k < |was| ==>
      && now[k].(synced := was[k].synced) == was[k]
      && (was[k].synced ==> now[k].synced)
      && (now[k].synced ==> was[k].synced || was[k].id in ids)
  }

  lemma MarkOneMore(was: seq<Entry>, now: seq<Entry>, ids: seq<ApprovalId>, id: ApprovalId)
    requires MarkedOnly(was, now, ids) && now == MarkAll(was, ids)
    ensures MarkedOnly(was, Mark(now, id), ids + [id])
    ensures Mark(now, id) == MarkAll(was, ids + [id])
  {
    MarkFrame(now, id);
    MarkAllConcat(was, ids, [id]);
    assert [id][1..] == [];
  }

  /**
   * Sends what can be sent. Exactly the confirmed approvals are marked; a pass that confirmed
   * any compacts the outbox and saves it, and one that confirmed none leaves the disk alone.
   */
  method DrainOutbox(inbox: JobIndex, outbox: ApprovalOutbox, disk: seq<Entry>, confirms: ApprovalId -> bool)
    returns (confirmed: seq<ApprovalId>, saved: seq<Entry>)
    requires inbox.Valid() && outbox.Valid()
    modifies outbox, outbox.entries
    ensures outbox.Valid()
    ensures forall id :: id in confirmed <==> SentAndConfirmed(inbox.Contents(), old(outbox.Contents()), confirms, id)
    ensures outbox.Contents() == if confirmed == [] then old(outbox.Contents())
                                 else Compact(MarkAll(old(outbox.Contents()), confirmed))
    ensures saved == if confirmed == [] then disk else outbox.Contents()
    ensures DistinctIds(old(outbox.Contents())) && confirmed != [] ==>
              outbox.Contents() == LeftUnsent(old(outbox.Contents()), confirmed)
  {
    hide Waiting, Mark, MarkAll, Compact, LeftUnsent, DistinctIds;
    ghost var was, jobs := outbox.Contents(), inbox.Contents();
    confirmed := [];
    assert MarkAll(was, []) == was by { MarkNone(was); }
    for i := 0 to outbox.count
      invariant outbox.Valid() && outbox.count == |was| && inbox.Valid() && inbox.Contents() == jobs
      invariant outbox.Contents() == MarkAll(was, confirmed)
      invariant MarkedOnly(was, outbox.Contents(), confirmed)
      invariant forall id :: id in confirmed ==> SentAndConfirmed(jobs, was, confirms, id)
      invariant forall k :: 0 <= k < i && Sendable(jobs, was[k]) && confirms(was[k].id) ==> was[k].id in confirmed
    {
      var e := outbox.entries[i];
      assert e == outbox.Contents()[i];
      if e.synced {
        continue;
      }
      var wait := MustWait(inbox, e.job);
      if wait {
        continue;
      }
      if confirms(e.id) {
        MarkOneMore(was, outbox.Contents(), confirmed, e.id);
        assert SentAndConfirmed(jobs, was, confirms, was[i].id);
        var _ := outbox.MarkSynced(e.id);
        confirmed := confirmed + [e.id];
      }
    }
    saved := disk;
    if confirmed != [] {
      var _ := outbox.CompactSynced();
      saved := outbox.entries[..outbox.count];
      if DistinctIds(was) {
        DrainLeaves(was, confirmed);
      }
    }
  }

  predicate DistinctIds(s: seq<Entry>) {
    forall i, j :: 0 <= i < j < |s| ==> s[i].id != s[j].id
  }

  /** The entries that are neither synced nor confirmed, in their order. */
  function LeftUnsent(s: seq<Entry>, ids: seq<ApprovalId>): seq<Entry> {
    if s == [] then []
    else (if s[0].synced || s[0].id in ids then [] else [s[0]]) + LeftUnsent(s[1..], ids)
  }

  lemma {:induction false} MarkKeepsIds(s: seq<Entry>, id: ApprovalId)
    requires DistinctIds(s)
    ensures DistinctIds(Mark(s, id))
  {
    MarkFrame(s, id);
    hide Mark;
    assert forall i :: 0 <= i < |s| ==> Mark(s, id)[i].id == s[i].id;
  }

  // Marking one id leaves what confirming it leaves.
  lemma {:induction false} MarkLeaves(s: seq<Entry>, id: ApprovalId, ids: seq<ApprovalId>)
    requires DistinctIds(s)
    ensures LeftUnsent(Mark(s, id), ids) == LeftUnsent(s, [id] + ids)
  {
    if s != [] {
      var rest := s[1..];
      assert DistinctIds(rest) by {
        assert forall i :: 0 <= i < |rest| ==> rest[i] == s[i + 1];
      }
      if s[0].id == id {
        assert forall i :: 0 <= i < |rest| ==> rest[i] == s[i + 1] && rest[i].id != id;
        OthersLeft(rest, id, ids);
      } else {
        MarkLeaves(rest, id, ids);
      }
    }
  }

  lemma {:induction false} OthersLeft(s: seq<Entry>, id: ApprovalId, ids: seq<ApprovalId>)
    requires forall i :: 0 <= i < |s| ==> s[i].id != id
    ensures LeftUnsent(s, ids) == LeftUnsent(s, [id] + ids)
  {
    if s != [] {
      OthersLeft(s[1..], id, ids);
    }
  }

  /** What a drain leaves of an outbox without repeated ids: every entry neither synced nor confirmed, in order. */
  lemma {:induction false} DrainLeaves(s: seq<Entry>, ids: seq<ApprovalId>)
    requires DistinctIds(s)
    ensures Compact(MarkAll(s, ids)) == LeftUnsent(s, ids)
    decreases |ids|
  {
    if ids == [] {
      CompactLeaves(s);
    } else {
      hide Mark, Compact, DistinctIds, LeftUnsent;
      MarkKeepsIds(s, ids[0]);
      DrainLeaves(Mark(s, ids[0]), ids[1..]);
      MarkLeaves(s, ids[0], ids[1..]);
      assert [ids[0]] + ids[1..] == ids;
    }
  }

  lemma {:induction false} CompactLeaves(s: seq<Entry>)
    ensures Compact(s) == LeftUnsent(s, [])
  {
    if s != [] {
      CompactLeaves(s[1..]);
    }
  }

  lemma MarkNone(s: seq<Entry>)
    ensures MarkAll(s, []) == s
  {
  }

  /** Draining loses nothing: an unsynced approval is still there or was confirmed. */
  lemma {:induction false} DrainKeepsUnconfirmed(s: seq<Entry>, ids: seq<ApprovalId>, e: Entry)
    requires e in s && !e.synced && e.id !in ids
    ensures e in Compact(MarkAll(s, ids))
    decreases |ids|
  {
    if ids == [] {
      CompactKeepsUnsynced(s, e);
    } else {
      MarkFrame(s, ids[0]);
      var i :| 0 <= i < |s| && s[i] == e;
      assert Mark(s, ids[0])[i] == e;
      DrainKeepsUnconfirmed(Mark(s, ids[0]), ids[1..], e);
    }
  }
}
