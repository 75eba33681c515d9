/** How the jobs table actually numbers new rows. `jobs.id` is declared
    `INTEGER PRIMARY KEY` without AUTOINCREMENT (app.py line 53), so SQLite
    gives a new row one more than the largest id currently in the table, or
    1 when the table is empty. After the newest job is deleted, the next job
    created gets the deleted job's id back, and since `delete_job` keeps the
    stage_history rows, the new job's history starts with the old job's rows.
    `backup_log` (line 152) is declared with AUTOINCREMENT and does not have
    this problem; `Store.nextJobId` models the jobs table as if it did. */
module RowIds {
  import opened Base
  import opened Records
  import opened Forms
  import opened Jobs

  /** A non-empty finite set of integers has a largest element. */
  lemma {:induction false} MaxExists(keys: set<int>)
    requires keys != {}
    ensures exists m :: m in keys && forall k | k in keys :: k <= m
    decreases |keys|
  {
    if forall k :: k !in keys {
      assert false;
    }
    var x :| x in keys;
    var rest := keys - {x};
    assert forall k | k in keys :: k == x || k in rest;
    if y :| y in rest {
      MaxExists(rest);
      var m :| m in rest && forall k | k in rest :: k <= m;
      var top := if x <= m then m else x;
      assert top in keys && forall k | k in keys :: k <= top;
    } else {
      assert forall k | k in keys :: k <= x;
    }
  }

  /** SQLite's rowid choice for a table without AUTOINCREMENT: one more than
      the largest id in the table, 1 for an empty table. */
  function SqliteRowId(jobs: map<JobId, Job>): (id: JobId)
    ensures forall k | k in jobs :: k < id
    ensures jobs == map[] ==> id == 1
    ensures jobs != map[] ==> id - 1 in jobs
  {
    if jobs == map[] then 1
    else
      MaxExists(jobs.Keys);
      var m :| m in jobs && forall k | k in jobs :: k <= m;
      m + 1
  }

  /** `add` as written: the new job gets SQLite's rowid. */
  function AddJobSqlite(s: Store, role: string, actor: UserId, req: AddRequest, now: Timestamp): (r: Result<Store, Error>)
    ensures r.Success? ==> SqliteRowId(s.jobs) in r.value.jobs && SqliteRowId(s.jobs) !in s.jobs
  {
    AddJobWithId(s, role, actor, req, now, SqliteRowId(s.jobs))
  }

  /** Deleting the job with the largest id lets SQLite hand that id out
      again: the next rowid is no larger than the deleted one. */
  lemma NewestIdReused(jobs: map<JobId, Job>, id: JobId)
    requires id in jobs && id >= 1
    requires forall k | k in jobs :: k <= id
    ensures SqliteRowId(jobs - {id}) <= id
  {
  }

  const FirstJob: AddRequest := AddRequest(JobInfo("J-100", "Acme", "", "", "", "", ""), "", Checklist(false, false, false))
  const SecondJob: AddRequest := AddRequest(JobInfo("J-200", "Bolt", "", "", "", "", ""), "", Checklist(false, false, false))

  /** Create J-100, delete it, create J-200, all as an admin: J-200 gets
      id 1, J-100's id, and its stage history shows two rows, the first of
      them J-100's creation. */
  lemma RowIdReusedAfterDelete()
    ensures var s1 := AddJobSqlite(EmptyStore, "admin", 7, FirstJob, "2024-01-01T09:00:00").value;
            var s2 := Jobs.DeleteJob(s1, "admin", 7, 1, "2024-01-02T09:00:00").value;
            var s3 := AddJobSqlite(s2, "admin", 7, SecondJob, "2024-01-03T09:00:00").value;
            && s3.jobs[1].info.jobNo == "J-200"
            && |HistoryOf(s3.history, 1)| == 2
            && HistoryOf(s3.history, 1)[0].updatedAt == "2024-01-01T09:00:00"
  {
    var s1 := AddJobSqlite(EmptyStore, "admin", 7, FirstJob, "2024-01-01T09:00:00").value;
    assert s1.jobs.Keys == {1};
    var s2 := Jobs.DeleteJob(s1, "admin", 7, 1, "2024-01-02T09:00:00").value;
    assert s2.jobs == map[];
    var s3 := AddJobSqlite(s2, "admin", 7, SecondJob, "2024-01-03T09:00:00").value;
    HistoryOfAppend([], s1.history[0], 1);
    HistoryOfAppend(s1.history, s3.history[1], 1);
    assert s3.history == s1.history + [s3.history[1]];
  }

  /** The same three requests against the corrected numbering: J-200 gets a
      fresh id and its history is exactly its own creation row, while
      J-100's row stays under id 1. */
  lemma FreshIdAfterDelete()
    ensures var s1 := AddJob(EmptyStore, "admin", 7, FirstJob, "2024-01-01T09:00:00").value;
            var s2 := Jobs.DeleteJob(s1, "admin", 7, 1, "2024-01-02T09:00:00").value;
            var s3 := AddJob(s2, "admin", 7, SecondJob, "2024-01-03T09:00:00").value;
            && 1 !in s3.jobs && s3.jobs[2].info.jobNo == "J-200"
            && |HistoryOf(s3.history, 2)| == 1
            && |HistoryOf(s3.history, 1)| == 1
  {
    EmptyStoreWf();
    var s1 := AddJob(EmptyStore, "admin", 7, FirstJob, "2024-01-01T09:00:00").value;
    AddJobPreservesWf(EmptyStore, "admin", 7, FirstJob, "2024-01-01T09:00:00");
    var s2 := Jobs.DeleteJob(s1, "admin", 7, 1, "2024-01-02T09:00:00").value;
    DeleteJobPreservesWf(s1, "admin", 7, 1, "2024-01-02T09:00:00");
    AddJobStartsTracking(s2, "admin", 7, SecondJob, "2024-01-03T09:00:00");
    var s3 := AddJob(s2, "admin", 7, SecondJob, "2024-01-03T09:00:00").value;
    HistoryOfAppend([], s1.history[0], 1);
    HistoryOfAppend(s2.history, s3.history[1], 1);
  }
}
