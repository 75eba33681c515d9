/** Sequences of requests against one store. A request that fails (wrong
    role, missing job, missing field, taken job number) leaves the database
    as it was, because every route checks before it writes. */
module Runs {
  import opened Base
  import opened Records
  import opened Forms
  import opened Tracker
  import opened Jobs
  import RowIds

  /** One POST request to a tracker route, with its actor, role and clock
      reading. */
  datatype Op =
    | AddOp(role: string, actor: UserId, add: AddRequest, now: Timestamp)
    | EditOp(role: string, actor: UserId, jobId: JobId, info: JobInfo, now: Timestamp)
    | DeleteOp(role: string, actor: UserId, jobId: JobId, now: Timestamp)
    | TrackOp(role: string, actor: UserId, jobId: JobId, stage: StageRequest, now: Timestamp)

  /** How `add` numbers the new row: `Counter` takes `nextJobId`, an id
      never handed out before (the jobs table as if it were declared with
      AUTOINCREMENT); `RowId` takes SQLite's rowid for the table as written,
      one more than the largest id present. */
  datatype Numbering = Counter | RowId

  /** The id the next created job receives. Either way it is free and
      positive in a well-formed store; only `Counter` also avoids every id
      handed out earlier. */
  function NewId(s: Store, n: Numbering): (id: JobId)
    ensures Wf(s) ==> 1 <= id && id !in s.jobs
    ensures n == Counter ==> id >= s.nextJobId
  {
    match n
    case Counter => s.nextJobId
    case RowId => RowIds.SqliteRowId(s.jobs)
  }

  function Apply(s: Store, op: Op, n: Numbering): Result<Store, Error> {
    match op
    case AddOp(role, actor, add, now) => AddJobWithId(s, role, actor, add, now, NewId(s, n))
    case EditOp(role, actor, jobId, info, now) => Jobs.EditJob(s, role, actor, jobId, info, now)
    case DeleteOp(role, actor, jobId, now) => Jobs.DeleteJob(s, role, actor, jobId, now)
    case TrackOp(role, actor, jobId, stage, now) => TrackerUpdate(s, role, actor, jobId, stage, now)
  }

  /** The store after one request; a failed request changes nothing. */
  function Step(s: Store, op: Op, n: Numbering): (r: Store)
    ensures r == s || Apply(s, op, n).Success?
    ensures r.nextJobId >= s.nextJobId
    ensures s.history <= r.history && s.log <= r.log
  {
    match Apply(s, op, n)
    case Success(t) => t
    case Failure(_) => s
  }

  function Run(s: Store, ops: seq<Op>, n: Numbering): Store
    decreases |ops|
  {
    if |ops| == 0 then s else Run(Step(s, ops[0], n), ops[1..], n)
  }

  /** Every request keeps the store invariant, under either numbering. */
  lemma StepPreservesWf(s: Store, op: Op, n: Numbering)
    requires Wf(s)
    ensures Wf(Step(s, op, n))
  {
    if Apply(s, op, n).Success? {
      match op
      case AddOp(role, actor, add, now) => AddJobWithIdPreservesWf(s, role, actor, add, now, NewId(s, n));
      case EditOp(role, actor, jobId, info, now) => EditJobPreservesWf(s, role, actor, jobId, info, now);
      case DeleteOp(role, actor, jobId, now) => DeleteJobPreservesWf(s, role, actor, jobId, now);
      case TrackOp(role, actor, jobId, stage, now) => TrackerUpdatePreservesWf(s, role, actor, jobId, stage, now);
    }
  }

  /** Any run of requests from a well-formed store keeps it well formed. */
  lemma {:induction false} RunPreservesWf(s: Store, ops: seq<Op>, n: Numbering)
    requires Wf(s)
    ensures Wf(Run(s, ops, n))
    decreases |ops|
  {
    if |ops| > 0 {
      StepPreservesWf(s, ops[0], n);
      RunPreservesWf(Step(s, ops[0], n), ops[1..], n);
    }
  }

  /** The stage history and the activity log are append-only: every run
      keeps all earlier rows, in place and unchanged, under either
      numbering. */
  lemma {:induction false} RunAppendOnly(s: Store, ops: seq<Op>, n: Numbering)
    ensures s.history <= Run(s, ops, n).history
    ensures s.log <= Run(s, ops, n).log
    decreases |ops|
  {
    if |ops| > 0 {
      RunAppendOnly(Step(s, ops[0], n), ops[1..], n);
    }
  }

  /** Under either numbering a live job's set outsourcing timestamp
      survives any one request that leaves the job in place: a stage update
      never overwrites it, an edit does not touch it, and a create never
      lands on an id in use. */
  lemma StepKeepsStamp(s: Store, op: Op, n: Numbering, id: JobId, e: OutsourceEvent, v: Timestamp)
    requires Wf(s) && id in s.jobs && s.jobs[id].outsourcing.At(e) == Some(v)
    ensures var t := Step(s, op, n);
            id in t.jobs ==> t.jobs[id].outsourcing.At(e) == Some(v)
  {
  }

  /** The first `k + 1` requests are the first request followed by the
      first `k` of the rest. */
  lemma RunPrefixUnfold(s: Store, ops: seq<Op>, n: Numbering, k: nat)
    requires k < |ops|
    ensures Run(s, ops[..k + 1], n) == Run(Step(s, ops[0], n), ops[1..][..k], n)
  {
    assert ops[..k + 1][0] == ops[0];
    assert ops[..k + 1][1..] == ops[1..][..k];
  }

  /** Write-once per job row, under either numbering: as long as the job is
      never deleted, its set outsourcing timestamp keeps its value through
      the whole run. */
  lemma {:induction false} RunKeepsStamp(s: Store, ops: seq<Op>, n: Numbering, id: JobId,
                                         e: OutsourceEvent, v: Timestamp)
    requires Wf(s) && id in s.jobs && s.jobs[id].outsourcing.At(e) == Some(v)
    requires forall k | 0 <= k <= |ops| :: id in Run(s, ops[..k], n).jobs
    ensures id in Run(s, ops, n).jobs && Run(s, ops, n).jobs[id].outsourcing.At(e) == Some(v)
    decreases |ops|
  {
    assert ops[..|ops|] == ops;
    if |ops| > 0 {
      var t := Step(s, ops[0], n);
      StepPreservesWf(s, ops[0], n);
      RunPrefixUnfold(s, ops, n, 0);
      assert ops[1..][..0] == [];
      StepKeepsStamp(s, ops[0], n, id, e, v);
      forall k | 0 <= k <= |ops[1..]|
        ensures id in Run(t, ops[1..][..k], n).jobs
      {
        RunPrefixUnfold(s, ops, n, k);
      }
      RunKeepsStamp(t, ops[1..], n, id, e, v);
    }
  }

  /** Under counter numbering a set outsourcing timestamp keeps its value
      through any single request, and the job it belongs to cannot come
      back once deleted. */
  lemma StepWriteOnce(s: Store, op: Op, id: JobId, e: OutsourceEvent, v: Timestamp)
    requires id < s.nextJobId
    requires id in s.jobs ==> s.jobs[id].outsourcing.At(e) == Some(v)
    ensures var t := Step(s, op, Counter);
            id < t.nextJobId && (id in t.jobs ==> t.jobs[id].outsourcing.At(e) == Some(v))
  {
  }

  /** Write-once across whole runs, under counter numbering: once an
      outsourcing timestamp is set, no sequence of requests changes it. The
      job may be deleted, but then no later create brings its id back with a
      different value. `RowIdLosesStamp` shows that rowid numbering breaks
      this. */
  lemma {:induction false} RunWriteOnce(s: Store, ops: seq<Op>, id: JobId, e: OutsourceEvent, v: Timestamp)
    requires id < s.nextJobId
    requires id in s.jobs ==> s.jobs[id].outsourcing.At(e) == Some(v)
    ensures var t := Run(s, ops, Counter);
            id in t.jobs ==> t.jobs[id].outsourcing.At(e) == Some(v)
    decreases |ops|
  {
    if |ops| > 0 {
      StepWriteOnce(s, ops[0], id, e, v);
      RunWriteOnce(Step(s, ops[0], Counter), ops[1..], id, e, v);
    }
  }

  /** Under counter numbering a deleted job's id is never handed out
      again. */
  lemma {:induction false} RunNeverRevives(s: Store, ops: seq<Op>, id: JobId)
    requires id < s.nextJobId && id !in s.jobs
    ensures id !in Run(s, ops, Counter).jobs
    decreases |ops|
  {
    if |ops| > 0 {
      var t := Step(s, ops[0], Counter);
      assert id < t.nextJobId && id !in t.jobs;
      RunNeverRevives(t, ops[1..], id);
    }
  }

  /** A stage form with only the plate-sent box ticked. */
  const PlateSentTick: StageRequest :=
    StageRequest("", Checklist(false, false, false), Ticks(true, false, false, false, false, false))

  /** Two requests run one after the other. */
  lemma RunTwo(s: Store, x: Op, y: Op, n: Numbering)
    ensures Run(s, [x, y], n) == Step(Step(s, x, n), y, n)
  {
    assert [x, y][1..] == [y];
    assert [y][1..] == [];
    assert Run(s, [x, y], n) == Run(Step(s, x, n), [y], n);
    assert Run(Step(s, x, n), [y], n) == Run(Step(Step(s, x, n), y, n), [], n);
  }

  /** The four requests of the rowid counterexample, all by one admin. */
  const CreateJ100: Op := AddOp("admin", 7, RowIds.FirstJob, "2024-01-01T09:00:00")
  const TickPlate: Op := TrackOp("admin", 7, 1, PlateSentTick, "2024-01-01T10:00:00")
  const DeleteJ100: Op := DeleteOp("admin", 7, 1, "2024-01-02T09:00:00")
  const CreateJ200: Op := AddOp("admin", 7, RowIds.SecondJob, "2024-01-03T09:00:00")

  /** The first job created in an empty table gets rowid 1. */
  lemma CreateInEmpty(s: Store)
    requires s.jobs == map[] && s.nextJobId >= 1
    ensures var t := Step(s, CreateJ100, RowId);
            t.jobs.Keys == {1} && t.jobs[1].info.jobNo == "J-100" && t.jobs[1].outsourcing.At(PlateSent) == None
  {
    assert NewId(s, RowId) == 1;
  }

  /** Ticking plate sent on job 1 stamps it when it was unset. */
  lemma TickStamps(s: Store)
    requires s.jobs.Keys == {1} && s.jobs[1].outsourcing.At(PlateSent) == None
    ensures var t := Step(s, TickPlate, RowId);
            t.jobs.Keys == {1} && t.jobs[1].outsourcing.At(PlateSent) == Some("2024-01-01T10:00:00")
  {
  }

  /** Deleting the only job empties the table. */
  lemma DeleteOnly(s: Store)
    requires s.jobs.Keys == {1}
    ensures Step(s, DeleteJ100, RowId).jobs == map[]
  {
  }

  /** A job created in an emptied table gets rowid 1 again, with no
      outsourcing timestamp. */
  lemma RecreateInEmpty(s: Store)
    requires s.jobs == map[]
    ensures var t := Step(s, CreateJ200, RowId);
            1 in t.jobs && t.jobs[1].info.jobNo == "J-200" && t.jobs[1].outsourcing.At(PlateSent) == None
  {
    assert NewId(s, RowId) == 1;
  }

  /** Write-once fails under rowid numbering: create J-100 (id 1), tick
      plate sent, delete it, create J-200. J-200 gets id 1 back, so id 1
      had a plate-sent time and now has none. */
  lemma RowIdLosesStamp()
    ensures var s1 := Run(EmptyStore, [CreateJ100, TickPlate], RowId);
            var s2 := Run(s1, [DeleteJ100, CreateJ200], RowId);
            && 1 < s1.nextJobId && 1 in s1.jobs
            && s1.jobs[1].outsourcing.At(PlateSent) == Some("2024-01-01T10:00:00")
            && 1 in s2.jobs && s2.jobs[1].info.jobNo == "J-200"
            && s2.jobs[1].outsourcing.At(PlateSent) == None
  {
    EmptyStoreWf();
    RunTwo(EmptyStore, CreateJ100, TickPlate, RowId);
    var a := Step(EmptyStore, CreateJ100, RowId);
    CreateInEmpty(EmptyStore);
    StepPreservesWf(EmptyStore, CreateJ100, RowId);
    var s1 := Step(a, TickPlate, RowId);
    TickStamps(a);
    StepPreservesWf(a, TickPlate, RowId);
    RunTwo(s1, DeleteJ100, CreateJ200, RowId);
    DeleteOnly(s1);
    RecreateInEmpty(Step(s1, DeleteJ100, RowId));
  }
}
