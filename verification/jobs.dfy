/** Creating, editing and deleting jobs (`add`, `edit`, `delete_job`), the
    operations around the stage tracker. Creating a job also records its
    initial stage in the history; editing touches only the general fields;
    deleting removes the job and its photos but keeps its history and audit
    rows. */
module Jobs {
  import opened Base
  import opened Stages
  import opened Records
  import opened Forms
  import opened Tracker

  /** The row `add` inserts for job `id`: the posted fields, creator and
      creation time, the initial stage and checklist stamped with the same
      actor and time, no edit yet and no outsourcing timestamp. */
  function NewJob(id: JobId, req: AddRequest, actor: UserId, now: Timestamp): (j: Job)
    ensures j.id == id && j.info == req.info && j.checklist == req.checklist
    ensures j.stage == EffectiveStage(req.stage, "")
    ensures j.createdBy == Some(actor) && j.createdAt == Some(now)
    ensures j.updatedBy.None? && j.updatedAt.None?
    ensures j.stageUpdatedBy == Some(actor) && j.stageUpdatedAt == Some(now)
    ensures j.outsourcing == NoOutsourcing
  {
    Job(id, req.info, Some(actor), Some(now), None, None, EffectiveStage(req.stage, ""),
        Some(actor), Some(now), req.checklist, NoOutsourcing)
  }

  /** `add`, with the id the database hands the new row passed in as `id`.
      The role gate comes first, then the required fields, then the UNIQUE
      constraint on job_no; any failure leaves the store untouched. */
  function AddJobWithId(s: Store, role: string, actor: UserId, req: AddRequest,
                        now: Timestamp, id: JobId): (r: Result<Store, Error>)
    ensures r.Failure? <==>
              role !in StaffRoles || req.info.jobNo == "" || req.info.name == ""
              || JobNoTaken(s.jobs, req.info.jobNo, None)
    ensures role !in StaffRoles ==> r == Failure(Forbidden)
    ensures role in StaffRoles && (req.info.jobNo == "" || req.info.name == "") ==> r == Failure(MissingRequired)
    ensures (role in StaffRoles && req.info.jobNo != "" && req.info.name != ""
             && JobNoTaken(s.jobs, req.info.jobNo, None)) ==> r == Failure(DuplicateJobNo)
    ensures r.Success? ==>
              && r.value.jobs.Keys == s.jobs.Keys + {id}
              && r.value.jobs[id] == NewJob(id, req, actor, now)
              && (forall k | k in s.jobs && k != id :: r.value.jobs[k] == s.jobs[k])
    ensures r.Success? ==>
              && r.value.history == s.history + [HistoryEntry(id, r.value.jobs[id].stage, actor, now, req.checklist)]
              && r.value.log == s.log + [AuditEntry(actor, CreateJob, Some(id), Some(req.info.jobNo), None, now)]
              && r.value.photos == s.photos
              && r.value.nextJobId == (if id + 1 > s.nextJobId then id + 1 else s.nextJobId)
  {
    if role !in StaffRoles then Failure(Forbidden)
    else if req.info.jobNo == "" || req.info.name == "" then Failure(MissingRequired)
    else if JobNoTaken(s.jobs, req.info.jobNo, None) then Failure(DuplicateJobNo)
    else
      var j := NewJob(id, req, actor, now);
      Success(Store(
        s.jobs[id := j],
        s.photos,
        s.history + [HistoryEntry(id, j.stage, actor, now, req.checklist)],
        LogAction(s.log, actor, CreateJob, Some(id), Some(req.info.jobNo), None, now),
        if id + 1 > s.nextJobId then id + 1 else s.nextJobId))
  }

  /** `add`: the new job receives the next unused id. */
  function AddJob(s: Store, role: string, actor: UserId, req: AddRequest, now: Timestamp): (r: Result<Store, Error>)
    ensures r.Success? ==> r.value.nextJobId == s.nextJobId + 1 && s.nextJobId in r.value.jobs
  {
    AddJobWithId(s, role, actor, req, now, s.nextJobId)
  }

  /** A job created under an id that no job row and no history row uses
      starts at the requested stage, or at PRE_DESIGN when none was chosen,
      with no outsourcing timestamp, and its history holds exactly the one
      row recording that stage. Which numbering chose the id does not
      matter; only that the id is new to the history table. */
  lemma AddJobWithIdStartsTracking(s: Store, role: string, actor: UserId, req: AddRequest,
                                   now: Timestamp, id: JobId)
    requires id !in s.jobs
    requires forall i | 0 <= i < |s.history| :: s.history[i].jobId != id
    ensures var r := AddJobWithId(s, role, actor, req, now, id);
            r.Success? ==>
              var j := r.value.jobs[id];
              && (req.stage == "" ==> j.stage == DefaultStage)
              && (req.stage != "" ==> j.stage == req.stage)
              && (forall e :: j.outsourcing.At(e).None?)
              && HistoryOf(r.value.history, id) == [HistoryEntry(id, j.stage, actor, now, req.checklist)]
  {
    var r := AddJobWithId(s, role, actor, req, now, id);
    if r.Success? {
      HistoryOfUnused(s.history, id);
      HistoryOfAppend(s.history, r.value.history[|s.history|], id);
    }
  }

  /** Under counter numbering every created job starts tracking afresh: the
      counter's id is unused by jobs and by history rows alike. */
  lemma AddJobStartsTracking(s: Store, role: string, actor: UserId, req: AddRequest, now: Timestamp)
    requires Wf(s)
    requires AddJob(s, role, actor, req, now).Success?
    ensures var t := AddJob(s, role, actor, req, now).value;
            var j := t.jobs[s.nextJobId];
            && s.nextJobId !in s.jobs
            && (req.stage == "" ==> j.stage == DefaultStage)
            && (req.stage != "" ==> j.stage == req.stage)
            && (forall e :: j.outsourcing.At(e).None?)
            && HistoryOf(t.history, s.nextJobId) == [HistoryEntry(s.nextJobId, j.stage, actor, now, req.checklist)]
  {
    AddJobWithIdStartsTracking(s, role, actor, req, now, s.nextJobId);
  }

  /** A job number that any job already holds is refused, however the rest
      of the form is filled in. */
  lemma AddJobRejectsDuplicate(s: Store, role: string, actor: UserId, req: AddRequest, now: Timestamp)
    requires role in StaffRoles && req.info.jobNo != "" && req.info.name != ""
    requires exists k | k in s.jobs :: s.jobs[k].info.jobNo == req.info.jobNo
    ensures AddJob(s, role, actor, req, now) == Failure(DuplicateJobNo)
  {
  }

  /** Creating a job under any id not currently in use keeps the store
      invariant, whichever numbering picked the id. */
  lemma AddJobWithIdPreservesWf(s: Store, role: string, actor: UserId, req: AddRequest,
                                now: Timestamp, id: JobId)
    requires Wf(s) && 1 <= id && id !in s.jobs
    ensures AddJobWithId(s, role, actor, req, now, id).Success? ==>
              Wf(AddJobWithId(s, role, actor, req, now, id).value)
  {
    var r := AddJobWithId(s, role, actor, req, now, id);
    if r.Success? {
      var t := r.value;
      JobNoTakenIsClash(s.jobs, id, t.jobs[id]);
      assert t.jobs == s.jobs[id := t.jobs[id]];
      HistoryBelowAppend(s.history, t.history[|s.history|], s.nextJobId, t.nextJobId);
      LogBelowAppend(s.log, t.log[|s.log|], s.nextJobId, t.nextJobId);
    }
  }

  /** Creating a job keeps the store invariant. */
  lemma AddJobPreservesWf(s: Store, role: string, actor: UserId, req: AddRequest, now: Timestamp)
    requires Wf(s)
    requires AddJob(s, role, actor, req, now).Success?
    ensures Wf(AddJob(s, role, actor, req, now).value)
  {
    AddJobWithIdPreservesWf(s, role, actor, req, now, s.nextJobId);
  }

  /** `edit` on a POST: the admin role gate, then the job lookup, then the
      UNIQUE constraint against every other job. No field is required. On
      success only the general fields and the edit stamp change; the stage,
      checklist, outsourcing timestamps, creation stamp, photos and history
      are left alone, and one EDIT_JOB row is logged under the new number. */
  function EditJob(s: Store, role: string, actor: UserId, jobId: JobId, info: JobInfo,
                   now: Timestamp): (r: Result<Store, Error>)
    ensures r.Failure? <==>
              role !in AdminRoles || jobId !in s.jobs || JobNoTaken(s.jobs, info.jobNo, Some(jobId))
    ensures role !in AdminRoles ==> r == Failure(Forbidden)
    ensures role in AdminRoles && jobId !in s.jobs ==> r == Failure(NotFound)
    ensures (role in AdminRoles && jobId in s.jobs && JobNoTaken(s.jobs, info.jobNo, Some(jobId)))
            ==> r == Failure(DuplicateJobNo)
    ensures r.Success? ==> r.value.jobs.Keys == s.jobs.Keys
    ensures r.Success? ==>
              var j, j2 := s.jobs[jobId], r.value.jobs[jobId];
              && (forall k | k in s.jobs && k != jobId :: r.value.jobs[k] == s.jobs[k])
              && j2.info == info && j2.updatedBy == Some(actor) && j2.updatedAt == Some(now)
              && j2.id == j.id && j2.createdBy == j.createdBy && j2.createdAt == j.createdAt
              && j2.stage == j.stage && j2.stageUpdatedBy == j.stageUpdatedBy
              && j2.stageUpdatedAt == j.stageUpdatedAt
              && j2.checklist == j.checklist && j2.outsourcing == j.outsourcing
    ensures r.Success? ==>
              && r.value.history == s.history && r.value.photos == s.photos
              && r.value.nextJobId == s.nextJobId
              && r.value.log == s.log + [AuditEntry(actor, Action.EditJob, Some(jobId), Some(info.jobNo), None, now)]
  {
    if role !in AdminRoles then Failure(Forbidden)
    else if jobId !in s.jobs then Failure(NotFound)
    else if JobNoTaken(s.jobs, info.jobNo, Some(jobId)) then Failure(DuplicateJobNo)
    else
      var j := s.jobs[jobId];
      Success(s.(
        jobs := s.jobs[jobId := j.(info := info, updatedBy := Some(actor), updatedAt := Some(now))],
        log := LogAction(s.log, actor, Action.EditJob, Some(jobId), Some(info.jobNo), None, now)))
  }

  /** Re-saving a job under its own number is never a conflict, given unique
      numbers: an edit that keeps the job number succeeds for an admin. */
  lemma EditKeepingNumberSucceeds(s: Store, role: string, actor: UserId, jobId: JobId,
                                  info: JobInfo, now: Timestamp)
    requires Wf(s) && role in AdminRoles && jobId in s.jobs
    requires info.jobNo == s.jobs[jobId].info.jobNo
    ensures EditJob(s, role, actor, jobId, info, now).Success?
  {
  }

  /** Editing a job keeps the store invariant. */
  lemma EditJobPreservesWf(s: Store, role: string, actor: UserId, jobId: JobId, info: JobInfo, now: Timestamp)
    requires Wf(s)
    requires EditJob(s, role, actor, jobId, info, now).Success?
    ensures Wf(EditJob(s, role, actor, jobId, info, now).value)
  {
    var t := EditJob(s, role, actor, jobId, info, now).value;
    assert UniqueJobNos(t.jobs) by {
      forall a, b | a in t.jobs && b in t.jobs && a != b
        ensures t.jobs[a].info.jobNo != t.jobs[b].info.jobNo
      {
        if a != jobId && b != jobId {
          assert t.jobs[a] == s.jobs[a] && t.jobs[b] == s.jobs[b];
        } else if a == jobId {
          assert t.jobs[b] == s.jobs[b];
        } else {
          assert t.jobs[a] == s.jobs[a];
        }
      }
    }
    LogBelowAppend(s.log, t.log[|s.log|], s.nextJobId, s.nextJobId);
  }

  /** The photos table without the rows of job `jobId`
      (`DELETE FROM photos WHERE job_id = ?`). */
  function PhotosWithout(photos: map<PhotoId, Photo>, jobId: JobId): (r: map<PhotoId, Photo>)
    ensures forall p :: p in r <==> p in photos && photos[p].jobId != jobId
    ensures forall p | p in r :: r[p] == photos[p]
  {
    map p | p in photos && photos[p].jobId != jobId :: photos[p]
  }

  /** `delete_job`: the admin role gate, then the job lookup. On success the
      job row and its photos are gone, every other job and photo is kept,
      the stage history is kept in full, and one DELETE_JOB row is logged
      under the deleted job's number. */
  function DeleteJob(s: Store, role: string, actor: UserId, jobId: JobId, now: Timestamp): (r: Result<Store, Error>)
    ensures r.Failure? <==> role !in AdminRoles || jobId !in s.jobs
    ensures role !in AdminRoles ==> r == Failure(Forbidden)
    ensures role in AdminRoles && jobId !in s.jobs ==> r == Failure(NotFound)
    ensures r.Success? ==>
              && r.value.jobs.Keys == s.jobs.Keys - {jobId}
              && (forall k | k in r.value.jobs :: r.value.jobs[k] == s.jobs[k])
              && (forall p :: p in r.value.photos <==> p in s.photos && s.photos[p].jobId != jobId)
              && (forall p | p in r.value.photos :: r.value.photos[p] == s.photos[p])
    ensures r.Success? ==>
              && r.value.history == s.history && r.value.nextJobId == s.nextJobId
              && r.value.log == s.log + [AuditEntry(actor, Action.DeleteJob, Some(jobId), Some(s.jobs[jobId].info.jobNo), None, now)]
  {
    if role !in AdminRoles then Failure(Forbidden)
    else if jobId !in s.jobs then Failure(NotFound)
    else
      Success(s.(
        jobs := s.jobs - {jobId},
        photos := PhotosWithout(s.photos, jobId),
        log := LogAction(s.log, actor, Action.DeleteJob, Some(jobId), Some(s.jobs[jobId].info.jobNo), None, now)))
  }

  /** Deleting a job keeps the store invariant: no photo is left pointing at
      the removed job. */
  lemma DeleteJobPreservesWf(s: Store, role: string, actor: UserId, jobId: JobId, now: Timestamp)
    requires Wf(s)
    requires DeleteJob(s, role, actor, jobId, now).Success?
    ensures Wf(DeleteJob(s, role, actor, jobId, now).value)
  {
    var t := DeleteJob(s, role, actor, jobId, now).value;
    LogBelowAppend(s.log, t.log[|s.log|], s.nextJobId, s.nextJobId);
  }

  /** After a delete the job's history is still there to read, and the id
      is gone from the jobs table but stays below the counter, so counter
      numbering will not hand it out again (rowid numbering may). */
  lemma DeleteKeepsHistory(s: Store, role: string, actor: UserId, jobId: JobId, now: Timestamp)
    requires Wf(s)
    requires DeleteJob(s, role, actor, jobId, now).Success?
    ensures var t := DeleteJob(s, role, actor, jobId, now).value;
            && HistoryOf(t.history, jobId) == HistoryOf(s.history, jobId)
            && jobId < t.nextJobId && jobId !in t.jobs
  {
  }
}
