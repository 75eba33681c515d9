/** The stage transition behind `/tracker/update/<job_id>` (`tracker_update`):
    resolve the stage to store, overwrite the pre-press checklist, set each
    outsourcing timestamp the first time its box is ticked, write the job
    row, append one stage_history row and one UPDATE_STAGE audit row. */
module Tracker {
  import opened Base
  import opened Stages
  import opened Records
  import opened Forms

  /** `request.form.get('stage', '').strip() or job['stage'] or 'PRE_DESIGN'`:
      the first non-empty of the posted stage, the job's current stage and
      the default. The code is not checked against the catalog. */
  function EffectiveStage(requested: string, current: string): (r: string)
    ensures r != ""
    ensures r == requested || r == current || r == DefaultStage
    ensures requested != "" ==> r == requested
    ensures requested == "" && current != "" ==> r == current
  {
    if requested != "" then requested
    else if current != "" then current
    else DefaultStage
  }

  /** One outsourcing column after an update: `now` when its box was ticked
      and the column was still unset, otherwise the value it had. */
  function Stamp(prior: Option<Timestamp>, ticked: bool, now: Timestamp): (r: Option<Timestamp>)
    ensures prior.Some? ==> r == prior
    ensures !ticked ==> r == prior
    ensures ticked && prior.None? ==> r == Some(now)
  {
    if ticked && prior.None? then Some(now) else prior
  }

  /** The six outsourcing columns after an update. A column already set never
      changes; an unset column becomes `now` exactly when its box is ticked. */
  function ApplyTicks(o: Outsourcing, ticks: Ticks, now: Timestamp): (r: Outsourcing)
    ensures forall e :: o.At(e).Some? ==> r.At(e) == o.At(e)
    ensures forall e :: o.At(e).None? && ticks.Ticked(e) ==> r.At(e) == Some(now)
    ensures forall e :: !ticks.Ticked(e) ==> r.At(e) == o.At(e)
  {
    Outsourcing(
      Stamp(o.plateSentAt, ticks.plateSent, now),
      Stamp(o.plateReceivedAt, ticks.plateReceived, now),
      Stamp(o.dieSentAt, ticks.dieSent, now),
      Stamp(o.dieReceivedAt, ticks.dieReceived, now),
      Stamp(o.paperSentAt, ticks.paperSent, now),
      Stamp(o.paperDoneAt, ticks.paperDone, now))
  }

  /** Ticking the same boxes again, at any later time, changes nothing: the
      first tick's timestamp stays. */
  lemma ApplyTicksIdempotent(o: Outsourcing, ticks: Ticks, first: Timestamp, later: Timestamp)
    ensures ApplyTicks(ApplyTicks(o, ticks, first), ticks, later) == ApplyTicks(o, ticks, first)
  {
  }

  /** The column recording event `e` is `now` after an update exactly when
      the box was ticked and the column was unset, or it already held `now`. */
  lemma StampedExactlyWhenTicked(o: Outsourcing, ticks: Ticks, now: Timestamp, e: OutsourceEvent)
    ensures ApplyTicks(o, ticks, now).At(e) == Some(now)
            <==> (ticks.Ticked(e) && o.At(e).None?) || o.At(e) == Some(now)
  {
  }

  /** Python's `str(bool(x))`. */
  function PyBool(b: bool): (r: string)
    ensures r == "True" || r == "False"
    ensures b <==> r == "True"
  {
    if b then "True" else "False"
  }

  /** The checklist part of the UPDATE_STAGE audit text. */
  function ChecklistText(c: Checklist): string {
    "; Pre-press: Plate=" + (PyBool(c.plate) + (", Die=" + (PyBool(c.die) + (", Paper=" + PyBool(c.paper)))))
  }

  /** The `details` text of the UPDATE_STAGE audit row: the stage's label
      (or its raw code when the catalog has no such code) and the three
      checklist flags. */
  function StageDetail(stage: string, c: Checklist): (r: string)
    ensures "Stage set to " <= r
    ensures |r| == 13 + |LabelOrCode(stage)| + |ChecklistText(c)|
    ensures r[13..13 + |LabelOrCode(stage)|] == LabelOrCode(stage)
    ensures r[13 + |LabelOrCode(stage)|..] == ChecklistText(c)
  {
    "Stage set to " + LabelOrCode(stage) + ChecklistText(c)
  }

  /** The audit text determines the checklist: two updates to the same
      stage log the same text exactly when they set the same flags. */
  lemma StageDetailRecordsFlags(stage: string, c1: Checklist, c2: Checklist)
    ensures StageDetail(stage, c1) == StageDetail(stage, c2) <==> c1 == c2
  {
    if StageDetail(stage, c1) == StageDetail(stage, c2) {
      ChecklistTextInjective(c1, c2);
    }
  }

  lemma ChecklistTextInjective(c1: Checklist, c2: Checklist)
    requires ChecklistText(c1) == ChecklistText(c2)
    ensures c1 == c2
  {
    CancelPrefix("; Pre-press: Plate=", PyBool(c1.plate) + (", Die=" + (PyBool(c1.die) + (", Paper=" + PyBool(c1.paper)))),
                 PyBool(c2.plate) + (", Die=" + (PyBool(c2.die) + (", Paper=" + PyBool(c2.paper)))));
    PyBoolPrefixFree(c1.plate, c2.plate, ", Die=" + (PyBool(c1.die) + (", Paper=" + PyBool(c1.paper))),
                     ", Die=" + (PyBool(c2.die) + (", Paper=" + PyBool(c2.paper))));
    CancelPrefix(", Die=", PyBool(c1.die) + (", Paper=" + PyBool(c1.paper)), PyBool(c2.die) + (", Paper=" + PyBool(c2.paper)));
    PyBoolPrefixFree(c1.die, c2.die, ", Paper=" + PyBool(c1.paper), ", Paper=" + PyBool(c2.paper));
    CancelPrefix(", Paper=", PyBool(c1.paper), PyBool(c2.paper));
  }

  lemma CancelPrefix(p: string, x: string, y: string)
    requires p + x == p + y
    ensures x == y
  {
    assert x == (p + x)[|p|..];
  }

  /** No printed flag is a prefix of the other, so the text that follows a
      flag starts at the same place in both. */
  lemma PyBoolPrefixFree(a: bool, b: bool, x: string, y: string)
    requires PyBool(a) + x == PyBool(b) + y
    ensures a == b && x == y
  {
    assert (PyBool(a) + x)[0] == PyBool(a)[0];
    assert (PyBool(b) + y)[0] == PyBool(b)[0];
    CancelPrefix(PyBool(a), x, y);
  }

  /** The audit text opens with the stage's catalog label, or with the raw
      code when the catalog has no such code, and ends with the flags. */
  lemma StageDetailNamesStage(stage: string, c: Checklist)
    ensures StageLabel(stage).Some? ==> "Stage set to " + StageLabel(stage).value <= StageDetail(stage, c)
    ensures StageLabel(stage).None? ==> "Stage set to " + stage <= StageDetail(stage, c)
    ensures |StageDetail(stage, c)| == 13 + |LabelOrCode(stage)| + |ChecklistText(c)|
    ensures StageDetail(stage, c)[13 + |LabelOrCode(stage)|..] == ChecklistText(c)
  {
  }

  /** The job row after a stage update: stage, stage_updated_by,
      stage_updated_at, the checklist and the outsourcing columns are
      rewritten; every other column is kept. */
  function AdvanceJob(j: Job, req: StageRequest, actor: UserId, now: Timestamp): (r: Job)
    ensures r.stage == EffectiveStage(req.stage, j.stage)
    ensures r.stageUpdatedBy == Some(actor) && r.stageUpdatedAt == Some(now)
    ensures r.checklist == req.checklist
    ensures r.outsourcing == ApplyTicks(j.outsourcing, req.ticks, now)
    ensures r.id == j.id && r.info == j.info
    ensures r.createdBy == j.createdBy && r.createdAt == j.createdAt
    ensures r.updatedBy == j.updatedBy && r.updatedAt == j.updatedAt
  {
    j.(stage := EffectiveStage(req.stage, j.stage),
       stageUpdatedBy := Some(actor),
       stageUpdatedAt := Some(now),
       checklist := req.checklist,
       outsourcing := ApplyTicks(j.outsourcing, req.ticks, now))
  }

  /** `tracker_update` on a POST. The role gate comes first, then the job
      lookup; either failure leaves the store untouched. On success the job
      row is rewritten by `AdvanceJob`, one history row records the new stage
      and checklist, and one UPDATE_STAGE row is logged under the job's
      number. */
  function TrackerUpdate(s: Store, role: string, actor: UserId, jobId: JobId,
                         req: StageRequest, now: Timestamp): (r: Result<Store, Error>)
    ensures r.Failure? <==> role !in StaffRoles || jobId !in s.jobs
    ensures role !in StaffRoles ==> r == Failure(Forbidden)
    ensures role in StaffRoles && jobId !in s.jobs ==> r == Failure(NotFound)
    ensures r.Success? ==>
              && r.value.jobs.Keys == s.jobs.Keys
              && r.value.jobs[jobId] == AdvanceJob(s.jobs[jobId], req, actor, now)
              && (forall id | id in s.jobs && id != jobId :: r.value.jobs[id] == s.jobs[id])
    ensures r.Success? ==>
              r.value.history == s.history + [HistoryEntry(jobId, r.value.jobs[jobId].stage, actor, now, req.checklist)]
    ensures r.Success? ==>
              r.value.log == s.log + [AuditEntry(actor, UpdateStage, Some(jobId), Some(s.jobs[jobId].info.jobNo),
                                                 Some(StageDetail(r.value.jobs[jobId].stage, req.checklist)), now)]
    ensures r.Success? ==> r.value.photos == s.photos && r.value.nextJobId == s.nextJobId
  {
    if role !in StaffRoles then Failure(Forbidden)
    else if jobId !in s.jobs then Failure(NotFound)
    else
      var j := s.jobs[jobId];
      var j2 := AdvanceJob(j, req, actor, now);
      Success(s.(
        jobs := s.jobs[jobId := j2],
        history := s.history + [HistoryEntry(jobId, j2.stage, actor, now, req.checklist)],
        log := LogAction(s.log, actor, UpdateStage, Some(jobId), Some(j.info.jobNo),
                         Some(StageDetail(j2.stage, req.checklist)), now)))
  }

  /** A successful update adds exactly one row to the updated job's history,
      after the rows it already had, and leaves every other job's history as
      it was. */
  lemma TrackerUpdateAppendsOneHistoryRow(s: Store, role: string, actor: UserId, jobId: JobId,
                                          req: StageRequest, now: Timestamp, other: JobId)
    requires role in StaffRoles && jobId in s.jobs
    ensures var t := TrackerUpdate(s, role, actor, jobId, req, now).value;
            && |HistoryOf(t.history, jobId)| == |HistoryOf(s.history, jobId)| + 1
            && HistoryOf(t.history, jobId)[..|HistoryOf(s.history, jobId)|] == HistoryOf(s.history, jobId)
            && (other != jobId ==> HistoryOf(t.history, other) == HistoryOf(s.history, other))
  {
    var t := TrackerUpdate(s, role, actor, jobId, req, now).value;
    var e := HistoryEntry(jobId, t.jobs[jobId].stage, actor, now, req.checklist);
    HistoryOfAppend(s.history, e, jobId);
    HistoryOfAppend(s.history, e, other);
  }

  /** The history row and the job row agree on the stage, actor, time and
      checklist just written. */
  lemma HistoryRowMatchesJob(s: Store, role: string, actor: UserId, jobId: JobId,
                             req: StageRequest, now: Timestamp)
    requires role in StaffRoles && jobId in s.jobs
    ensures var t := TrackerUpdate(s, role, actor, jobId, req, now).value;
            var h := t.history[|t.history| - 1];
            var j := t.jobs[jobId];
            && h.jobId == jobId && h.stage == j.stage && Some(h.updatedBy) == j.stageUpdatedBy
            && Some(h.updatedAt) == j.stageUpdatedAt && h.checklist == j.checklist
  {
  }

  /** A stage update keeps the store invariant. */
  lemma TrackerUpdatePreservesWf(s: Store, role: string, actor: UserId, jobId: JobId,
                                 req: StageRequest, now: Timestamp)
    requires Wf(s)
    requires role in StaffRoles && jobId in s.jobs
    ensures Wf(TrackerUpdate(s, role, actor, jobId, req, now).value)
  {
    var t := TrackerUpdate(s, role, actor, jobId, req, now).value;
    assert forall id | id in t.jobs :: t.jobs[id].info == s.jobs[id].info;
    HistoryBelowAppend(s.history, t.history[|s.history|], s.nextJobId, s.nextJobId);
    LogBelowAppend(s.log, t.log[|s.log|], s.nextJobId, s.nextJobId);
  }
}
