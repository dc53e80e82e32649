/**
 * One sync pass of the device: originals of locally created jobs go to the Pi first, then
 * the outbox is drained, directly or through the relay.
 */
module SyncPass {
  import opened PiRows
  import opened Outbox

  /** The entry a search for its job finds. */
  predicate IsFirst(inbox: seq<InboxJob>, k: nat)
    requires k < |inbox|
  {
    forall i :: 0 <= i < k ==> inbox[i].job != inbox[k].job
  }

  /** The inbox after a pass of uploads: originals the Pi took are no longer pending. */
  function Uploaded(inbox: seq<InboxJob>, accepts: JobId -> bool): (r: seq<InboxJob>)
    ensures |r| == |inbox|
    ensures forall k :: 0 <= k < |inbox| ==>
      r[k] == if IsFirst(inbox, k) && accepts(inbox[k].job) then inbox[k].(originalPending := false) else inbox[k]
  {
    seq(|inbox|, k requires 0 <= k < |inbox| =>
      if IsFirst(inbox, k) && accepts(inbox[k].job) then inbox[k].(originalPending := false) else inbox[k])
  }

  /** Every job once: what adding jobs to the inbox keeps. */
  predicate Distinct(inbox: seq<InboxJob>) {
    forall i, j :: 0 <= i < j < |inbox| ==> inbox[i].job != inbox[j].job
  }

  /** The inbox with the entry in the place of the job's old one, or at the end. */
  function Upserted(inbox: seq<InboxJob>, entry: InboxJob): seq<InboxJob> {
    if inbox == [] then [entry]
    else if inbox[0].job == entry.job then [entry] + inbox[1..]
    else [inbox[0]] + Upserted(inbox[1..], entry)
  }

  lemma {:induction false} UpsertedAt(inbox: seq<InboxJob>, entry: InboxJob, k: nat)
    requires k <= |inbox| && forall i :: 0 <= i < k ==> inbox[i].job != entry.job
    requires k < |inbox| ==> inbox[k].job == entry.job
    ensures Upserted(inbox, entry) == if k < |inbox| then inbox[k := entry] else inbox + [entry]
  {
    if k > 0 {
      UpsertedAt(inbox[1..], entry, k - 1);
      assert k < |inbox| ==> inbox[k := entry] == [inbox[0]] + inbox[1..][k - 1 := entry];
    }
  }

  /** Upserting replaces nothing but the job's own entry and keeps every job once. */
  lemma {:induction false} UpsertedKeeps(inbox: seq<InboxJob>, entry: InboxJob, e: InboxJob)
    ensures e in Upserted(inbox, entry) && e.job != entry.job <==> e in inbox && e.job != entry.job
    ensures entry in Upserted(inbox, entry)
    ensures Distinct(inbox) ==> Distinct(Upserted(inbox, entry))
  {
    if inbox != [] {
      var rest := inbox[1..];
      assert inbox == [inbox[0]] + rest;
      assert Distinct(inbox) ==> Distinct(rest) by {
        assert forall i :: 0 <= i < |rest| ==> rest[i] == inbox[i + 1];
      }
      if inbox[0].job != entry.job {
        UpsertedKeeps(rest, entry, e);
        if Distinct(inbox) {
          forall x | x in Upserted(rest, entry) ensures x.job != inbox[0].job {
            UpsertedKeeps(rest, entry, x);
          }
        }
      }
    }
  }

  /** Adds a job, or overwrites the entry it has already; fails only when the inbox is full. */
  method Upsert(inbox: JobIndex, entry: InboxJob) returns (ok: bool)
    requires inbox.Valid()
    modifies inbox, inbox.jobs
    ensures inbox.Valid()
    ensures ok <==> |Upserted(old(inbox.Contents()), entry)| <= 64
    ensures inbox.Contents() == if ok then Upserted(old(inbox.Contents()), entry) else old(inbox.Contents())
  {
    var k := inbox.Find(entry.job);
    ghost var was := inbox.Contents();
    UpsertedAt(was, entry, k);
    if k < inbox.count {
      inbox.jobs[k] := entry;
      assert inbox.Contents() == was[k := entry];
      return true;
    }
    if inbox.count >= MAX_JOBS {
      return false;
    }
    inbox.jobs[inbox.count] := entry;
    inbox.count := inbox.count + 1;
    assert inbox.Contents() == was + [entry];
    ok := true;
  }

  /** Hands the originals over; whether the Pi takes one is the parameter. */
  method UploadPendingOriginals(inbox: JobIndex, piReachable: bool, accepts: JobId -> bool)
    requires inbox.Valid()
    modifies inbox.jobs
    ensures inbox.Valid()
    ensures inbox.Contents() == if piReachable then Uploaded(old(inbox.Contents()), accepts) else old(inbox.Contents())
  {
    if !piReachable {
      return;
    }
    ghost var was := inbox.Contents();
    ghost var done := Uploaded(was, accepts);
    hide Uploaded, IsFirst;
    for i := 0 to inbox.count
      invariant inbox.Valid() && inbox.count == |was|
      invariant forall k :: 0 <= k < i ==> inbox.jobs[k] == done[k]
      invariant forall k :: i <= k < |was| ==> inbox.jobs[k] == was[k]
    {
      var snapshot := inbox.jobs[i];
      if snapshot.originalPending && accepts(snapshot.job) {
        var k := inbox.Find(snapshot.job);
        FoundIsFirst(was, i, k, inbox.jobs[..]);
        inbox.jobs[k] := inbox.jobs[k].(originalPending := false);
      }
    }
    assert inbox.Contents() == done;
  }

  // The entry found is the first of its job, whichever entry the pass is at.
  lemma FoundIsFirst(was: seq<InboxJob>, i: nat, k: nat, now: seq<InboxJob>)
    requires i < |was| <= |now| && k <= |was|
    requires forall j :: 0 <= j < |was| ==> now[j].job == was[j].job
    requires k < |was| ==> now[k].job == was[i].job
    requires forall j :: 0 <= j < k ==> now[j].job != was[i].job
    ensures k <= i && IsFirst(was, k) && (k < i ==> !IsFirst(was, i)) && was[k].job == was[i].job
  {
    assert now[i].job == was[i].job;
  }

  /**
   * Uploads, then drains. An approval of a job whose original is still pending is confirmed
   * only if the Pi took the original in this very pass.
   */
  method UploadAndDrain(inbox: JobIndex, outbox: ApprovalOutbox, disk: seq<Entry>, piForUpload: bool,
                        piForDrain: bool, relay: bool, accepts: JobId -> bool,
                        piConfirms: ApprovalId -> bool, relayConfirms: ApprovalId -> bool)
    returns (confirmed: seq<ApprovalId>, saved: seq<Entry>)
    requires inbox.Valid() && outbox.Valid()
    modifies inbox.jobs, outbox, outbox.entries
    ensures inbox.Valid() && outbox.Valid()
    ensures inbox.Contents() == if piForUpload then Uploaded(old(inbox.Contents()), accepts) else old(inbox.Contents())
    ensures (forall id :: id in confirmed <==>
              (piForDrain || relay)
              && SentAndConfirmed(inbox.Contents(), old(outbox.Contents()), if piForDrain then piConfirms else relayConfirms, id))
    ensures outbox.Contents() == if confirmed == [] then old(outbox.Contents())
                                 else Compact(MarkAll(old(outbox.Contents()), confirmed))
    ensures saved == if confirmed == [] then disk else outbox.Contents()
  {
    UploadPendingOriginals(inbox, piForUpload, accepts);
    confirmed, saved := [], disk;
    if outbox.count == 0 {
      assert outbox.Contents() == [];
      return;
    }
    if !piForDrain && !relay {
      return;
    }
    var confirms := if piForDrain then piConfirms else relayConfirms;
    confirmed, saved := DrainOutbox(inbox, outbox, disk, confirms);
  }

  /** An approval waits for its original unless this pass handed the original over. */
  lemma WaitsForOriginal(inbox: seq<InboxJob>, accepts: JobId -> bool, job: JobId)
    ensures Waiting(Uploaded(inbox, accepts), job) <==> Waiting(inbox, job) && !accepts(job)
  {
    var now := Uploaded(inbox, accepts);
    if Waiting(inbox, job) && !accepts(job) {
      var k :| 0 <= k < |inbox| && inbox[k].job == job && inbox[k].originalPending
               && forall l :: 0 <= l < k ==> inbox[l].job != job;
      assert now[k].job == job && now[k].originalPending;
    }
    if Waiting(now, job) {
      var k :| 0 <= k < |now| && now[k].job == job && now[k].originalPending
               && forall l :: 0 <= l < k ==> now[l].job != job;
      assert inbox[k].job == job && inbox[k].originalPending;
    }
  }

  /**
   * What a pass may send: an unsynced approval whose job's original is not pending in the inbox, or is
   * handed over in this very pass. Only the first entry of a job counts.
   */
  lemma SentOnlyWithOriginal(inbox: seq<InboxJob>, piForUpload: bool, accepts: JobId -> bool, e: Entry)
    ensures (var now := if piForUpload then Uploaded(inbox, accepts) else inbox;
             Sendable(now, e) <==>
               !e.synced && forall k :: 0 <= k < |inbox| && inbox[k].job == e.job && IsFirst(inbox, k) ==>
                 inbox[k].originalPending ==> piForUpload && accepts(e.job))
  {
    WaitsForOriginal(inbox, accepts, e.job);
    FirstWaits(inbox, e.job);
    hide Waiting;
  }

  lemma FirstWaits(inbox: seq<InboxJob>, job: JobId)
    ensures Waiting(inbox, job) <==>
            exists k :: 0 <= k < |inbox| && inbox[k].job == job && IsFirst(inbox, k) && inbox[k].originalPending
  {
  }
}
