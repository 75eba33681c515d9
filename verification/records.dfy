/** The tables the tracker works on, as immutable values: the jobs table
    (keyed by surrogate id), the photos table, the append-only stage history
    and the append-only activity log. */
module Records {
  import opened Base

  /** The three pre-press checklist flags (`pre_plate`, `pre_die`,
      `pre_paper`), stored as 1/0 in the source. */
  datatype Checklist = Checklist(plate: bool, die: bool, paper: bool)

  /** The six outsourcing events, each recorded by one timestamp column. */
  datatype OutsourceEvent = PlateSent | PlateReceived | DieSent | DieReceived | PaperSent | PaperDone

  /** The six outsourcing timestamp columns of a job. None stands for a
      column that is NULL or empty, the values Python's `not x` treats as
      unset. */
  datatype Outsourcing = Outsourcing(
    plateSentAt: Option<Timestamp>,
    plateReceivedAt: Option<Timestamp>,
    dieSentAt: Option<Timestamp>,
    dieReceivedAt: Option<Timestamp>,
    paperSentAt: Option<Timestamp>,
    paperDoneAt: Option<Timestamp>)
  {
    /** The column that records event `e`. */
    function At(e: OutsourceEvent): Option<Timestamp> {
      match e
      case PlateSent => plateSentAt
      case PlateReceived => plateReceivedAt
      case DieSent => dieSentAt
      case DieReceived => dieReceivedAt
      case PaperSent => paperSentAt
      case PaperDone => paperDoneAt
    }
  }

  /** All six outsourcing timestamps unset, as for a freshly created job. */
  const NoOutsourcing: Outsourcing := Outsourcing(None, None, None, None, None, None)

  /** Which of the six outsourcing boxes were ticked on the stage form. */
  datatype Ticks = Ticks(
    plateSent: bool,
    plateReceived: bool,
    dieSent: bool,
    dieReceived: bool,
    paperSent: bool,
    paperDone: bool)
  {
    function Ticked(e: OutsourceEvent): bool {
      match e
      case PlateSent => plateSent
      case PlateReceived => plateReceived
      case DieSent => dieSent
      case DieReceived => dieReceived
      case PaperSent => paperSent
      case PaperDone => paperDone
    }
  }

  /** The general fields of a job, the ones the edit form changes. */
  datatype JobInfo = JobInfo(
    jobNo: string,
    name: string,
    date: string,
    paper: string,
    note: string,
    price: string,
    serial: string)

  /** A row of the jobs table. `stage` is "" when the column is NULL or
      empty (rows that predate the stage column). */
  datatype Job = Job(
    id: JobId,
    info: JobInfo,
    createdBy: Option<UserId>,
    createdAt: Option<Timestamp>,
    updatedBy: Option<UserId>,
    updatedAt: Option<Timestamp>,
    stage: string,
    stageUpdatedBy: Option<UserId>,
    stageUpdatedAt: Option<Timestamp>,
    checklist: Checklist,
    outsourcing: Outsourcing)

  /** A row of stage_history: the stage and checklist a job was given, by
      whom and when. */
  datatype HistoryEntry = HistoryEntry(
    jobId: JobId,
    stage: string,
    updatedBy: UserId,
    updatedAt: Timestamp,
    checklist: Checklist)

  /** The action kinds written to activity_log. */
  datatype Action = CreateJob | EditJob | DeleteJob | UpdateStage | DeleteUser | BackupAdded | BackupEdited
  {
    /** The text stored in the `action` column. */
    function Code(): string {
      match this
      case CreateJob => "CREATE_JOB"
      case EditJob => "EDIT_JOB"
      case DeleteJob => "DELETE_JOB"
      case UpdateStage => "UPDATE_STAGE"
      case DeleteUser => "DELETE_USER"
      case BackupAdded => "BACKUP_ADDED"
      case BackupEdited => "BACKUP_EDITED"
    }
  }

  /** A row of activity_log. */
  datatype AuditEntry = AuditEntry(
    userId: UserId,
    action: Action,
    jobId: Option<JobId>,
    jobNo: Option<string>,
    details: Option<string>,
    createdAt: Timestamp)

  /** A row of the photos table. */
  datatype Photo = Photo(jobId: JobId, filename: string, uploadedAt: Timestamp)

  /** The whole database as far as the tracker is concerned. `nextJobId` is
      the id the next created job receives. */
  datatype Store = Store(
    jobs: map<JobId, Job>,
    photos: map<PhotoId, Photo>,
    history: seq<HistoryEntry>,
    log: seq<AuditEntry>,
    nextJobId: JobId)

  /** A freshly initialised database. */
  const EmptyStore: Store := Store(map[], map[], [], [], 1)

  /** Roles allowed to create jobs and to update stages. */
  const StaffRoles: set<string> := {"superadmin", "admin", "staff"}

  /** Roles allowed to edit and to delete jobs. */
  const AdminRoles: set<string> := {"superadmin", "admin"}

  /** Some job other than `except` already carries job number `jobNo`:
      writing it would violate the UNIQUE constraint on jobs.job_no. */
  predicate JobNoTaken(jobs: map<JobId, Job>, jobNo: string, except: Option<JobId>) {
    exists id | id in jobs :: (except.None? || id != except.value) && jobs[id].info.jobNo == jobNo
  }

  /** No two jobs share a job number. */
  ghost predicate UniqueJobNos(jobs: map<JobId, Job>) {
    forall a, b | a in jobs && b in jobs && a != b :: jobs[a].info.jobNo != jobs[b].info.jobNo
  }

  /** `JobNoTaken` is exactly what the UNIQUE constraint refuses: writing
      job `j` under `id` keeps the job numbers unique exactly when no other
      job holds its number. For a new id, excluding it changes nothing. */
  lemma JobNoTakenIsClash(jobs: map<JobId, Job>, id: JobId, j: Job)
    requires UniqueJobNos(jobs)
    ensures UniqueJobNos(jobs[id := j]) <==> !JobNoTaken(jobs, j.info.jobNo, Some(id))
    ensures id !in jobs ==> (JobNoTaken(jobs, j.info.jobNo, Some(id)) <==> JobNoTaken(jobs, j.info.jobNo, None))
  {
    var t := jobs[id := j];
    if JobNoTaken(jobs, j.info.jobNo, Some(id)) {
      var k :| k in jobs && k != id && jobs[k].info.jobNo == j.info.jobNo;
      assert t[k] == jobs[k] && t[id] == j;
    } else {
      forall a, b | a in t && b in t && a != b ensures t[a].info.jobNo != t[b].info.jobNo {
        if a != id && b != id {
          assert t[a] == jobs[a] && t[b] == jobs[b];
        } else if a == id {
          assert t[b] == jobs[b];
        } else {
          assert t[a] == jobs[a];
        }
      }
    }
  }

  /** Every job is stored under its own id, and that id has been handed out. */
  ghost predicate JobsKeyed(jobs: map<JobId, Job>, next: JobId) {
    forall id | id in jobs :: jobs[id].id == id && 1 <= id < next
  }

  /** Every photo belongs to a job that exists. */
  ghost predicate PhotosOwned(photos: map<PhotoId, Photo>, jobs: map<JobId, Job>) {
    forall p | p in photos :: photos[p].jobId in jobs
  }

  /** Every history row names an id already handed out. */
  ghost predicate HistoryBelow(h: seq<HistoryEntry>, next: JobId) {
    forall i | 0 <= i < |h| :: h[i].jobId < next
  }

  /** Every audit row that names a job names an id already handed out. */
  ghost predicate LogBelow(log: seq<AuditEntry>, next: JobId) {
    forall i | 0 <= i < |log| :: log[i].jobId.Some? ==> log[i].jobId.value < next
  }

  /** The invariant every reachable store keeps: rows are stored under their
      own id, ids already handed out lie below `nextJobId`, job numbers are
      unique, and every photo belongs to an existing job. */
  ghost predicate Wf(s: Store) {
    && s.nextJobId >= 1
    && JobsKeyed(s.jobs, s.nextJobId)
    && UniqueJobNos(s.jobs)
    && PhotosOwned(s.photos, s.jobs)
    && HistoryBelow(s.history, s.nextJobId)
    && LogBelow(s.log, s.nextJobId)
  }

  lemma EmptyStoreWf()
    ensures Wf(EmptyStore)
  {
  }

  /** Appending a row for a handed-out id, under a bound that does not
      shrink, keeps `HistoryBelow`. */
  lemma HistoryBelowAppend(h: seq<HistoryEntry>, e: HistoryEntry, next: JobId, next2: JobId)
    requires HistoryBelow(h, next) && next <= next2 && e.jobId < next2
    ensures HistoryBelow(h + [e], next2)
  {
    forall i | 0 <= i < |h| + 1 ensures (h + [e])[i].jobId < next2 {
      if i < |h| { assert (h + [e])[i] == h[i]; }
    }
  }

  /** Appending a row for a handed-out id, under a bound that does not
      shrink, keeps `LogBelow`. */
  lemma LogBelowAppend(log: seq<AuditEntry>, e: AuditEntry, next: JobId, next2: JobId)
    requires LogBelow(log, next) && next <= next2
    requires e.jobId.Some? ==> e.jobId.value < next2
    ensures LogBelow(log + [e], next2)
  {
    forall i | 0 <= i < |log| + 1 ensures (log + [e])[i].jobId.Some? ==> (log + [e])[i].jobId.value < next2 {
      if i < |log| { assert (log + [e])[i] == log[i]; }
    }
  }

  /** `log_action`: appends one activity_log row and leaves the earlier rows
      as they were. */
  function LogAction(log: seq<AuditEntry>, userId: UserId, action: Action, jobId: Option<JobId>,
                     jobNo: Option<string>, details: Option<string>, now: Timestamp): (r: seq<AuditEntry>)
    ensures |r| == |log| + 1
    ensures r[..|log|] == log
    ensures r[|log|] == AuditEntry(userId, action, jobId, jobNo, details, now)
  {
    log + [AuditEntry(userId, action, jobId, jobNo, details, now)]
  }

  /** The stage_history rows of one job, in insertion order
      (`WHERE h.job_id = ?`). */
  function HistoryOf(h: seq<HistoryEntry>, jobId: JobId): (r: seq<HistoryEntry>)
    ensures forall e :: e in r <==> e in h && e.jobId == jobId
    ensures forall e :: multiset(r)[e] == if e.jobId == jobId then multiset(h)[e] else 0
    ensures |r| <= |h|
  {
    if |h| == 0 then []
    else
      var init := h[..|h| - 1];
      var last := h[|h| - 1];
      assert h == init + [last];
      HistoryOf(init, jobId) + (if last.jobId == jobId then [last] else [])
  }

  /** Appending an entry adds it to its own job's history and to no other. */
  lemma HistoryOfAppend(h: seq<HistoryEntry>, e: HistoryEntry, jobId: JobId)
    ensures HistoryOf(h + [e], jobId) == HistoryOf(h, jobId) + (if e.jobId == jobId then [e] else [])
  {
    assert (h + [e])[..|h|] == h;
  }

  /** Table order is kept: the history of a table is a prefix of the
      history of any longer table that starts with it. */
  lemma {:induction false} HistoryOfPrefix(h: seq<HistoryEntry>, more: seq<HistoryEntry>, jobId: JobId)
    ensures HistoryOf(h, jobId) <= HistoryOf(h + more, jobId)
    decreases |more|
  {
    if |more| > 0 {
      var init := more[..|more| - 1];
      assert h + more == (h + init) + [more[|more| - 1]];
      HistoryOfPrefix(h, init, jobId);
      HistoryOfAppend(h + init, more[|more| - 1], jobId);
    } else {
      assert h + more == h;
    }
  }

  /** A job id no entry mentions has an empty history. */
  lemma HistoryOfUnused(h: seq<HistoryEntry>, jobId: JobId)
    requires forall i | 0 <= i < |h| :: h[i].jobId != jobId
    ensures HistoryOf(h, jobId) == []
  {
  }
}
