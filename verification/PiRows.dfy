/**
 * The Pi's durable rows and the transactions on them. Every transaction of the
 * database runs under one write lock, so each is one atomic map update.
 */
module PiRows {
  import opened Options

  type JobId = string
  type ApprovalId = string

  datatype Action = Print | Keep | Delete

  /** What an approval asks for, and whether the admin console issued it. */
  datatype Envelope = Envelope(job: JobId, action: Action, admin: bool)

  datatype JobStatus = Pending | Kept | Deleted

  datatype Job = Job(status: JobStatus, finalizing: Option<ApprovalId>)

  datatype Detail = Printed | KeptIt | Archived | PrintFailed | Failed | Superseded

  datatype Row = Row(env: Envelope, applied: bool, detail: Option<Detail>)

  datatype Rows = Rows(jobs: map<JobId, Job>, approvals: map<ApprovalId, Row>)

  /** A print that only one approval of the job may carry out. */
  predicate Guarded(e: Envelope) {
    e.action.Print? && !e.admin
  }

  /** INSERT OR IGNORE of the approval row; new exactly when there was none. */
  function Record(r: Rows, id: ApprovalId, e: Envelope): Rows {
    if id in r.approvals then r
    else r.(approvals := r.approvals[id := Row(e, false, None)])
  }

  /** Whether the claiming UPDATE finds its row. */
  predicate CanClaim(r: Rows, job: JobId, id: ApprovalId) {
    job in r.jobs && (r.jobs[job].finalizing == None || r.jobs[job].finalizing == Some(id))
  }

  function Claim(r: Rows, job: JobId, id: ApprovalId): Rows {
    if CanClaim(r, job, id) then r.(jobs := r.jobs[job := r.jobs[job].(finalizing := Some(id))])
    else r
  }

  function MarkApplied(r: Rows, id: ApprovalId, detail: Detail): Rows {
    if id in r.approvals then
      r.(approvals := r.approvals[id := r.approvals[id].(applied := true, detail := Some(detail))])
    else r
  }

  function SetStatus(r: Rows, job: JobId, status: JobStatus): Rows {
    if job in r.jobs then r.(jobs := r.jobs[job := r.jobs[job].(status := status)])
    else r
  }

  /** INSERT OR IGNORE of a job row. */
  function AddJob(r: Rows, job: JobId): Rows {
    if job in r.jobs then r else r.(jobs := r.jobs[job := Job(Pending, None)])
  }

  /** The admin console's purge; approval rows stay. */
  function PurgeJob(r: Rows, job: JobId): Rows {
    r.(jobs := r.jobs - {job})
  }

  predicate Applied(r: Rows, id: ApprovalId) {
    id in r.approvals && r.approvals[id].applied
  }

  predicate Unapplied(r: Rows, id: ApprovalId) {
    id in r.approvals && !r.approvals[id].applied
  }

  /** One id comes before another in a list. */
  predicate Precedes(s: seq<ApprovalId>, a: ApprovalId, b: ApprovalId) {
    exists i, j :: 0 <= i < j < |s| && s[i] == a && s[j] == b
  }

  lemma PrecedesLonger(front: seq<ApprovalId>, last: ApprovalId, a: ApprovalId, b: ApprovalId)
    ensures Precedes(front, a, b) ==> Precedes(front + [last], a, b)
    ensures a in front ==> Precedes(front + [last], a, last)
  {
    var s := front + [last];
    if i, j :| 0 <= i < j < |front| && front[i] == a && front[j] == b {
      assert s[i] == a && s[j] == b;
    }
    if i :| 0 <= i < |front| && front[i] == a {
      assert s[i] == a && s[|front|] == last;
    }
  }
}
