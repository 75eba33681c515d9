/** The two read-only views of the tracker's append-only tables: the
    activity page (`activity`), which filters the audit log by day and lists
    at most 500 rows newest first, and the stage history of one job
    (`tracker_job_detail`), oldest first. */
module Queries {
  import opened Base
  import opened Text
  import opened Records
  import opened Sorting
  import opened Tracker

  /** `LIMIT 500`. */
  const ActivityLimit: nat := 500

  /** `substr(created_at, 1, 10)`: the YYYY-MM-DD part of an ISO timestamp. */
  function DatePart(ts: string): (d: string)
    ensures |d| == if |ts| < 10 then |ts| else 10
    ensures d <= ts
  {
    Prefix(ts, 10)
  }

  /** The `date`, `from_date` and `to_date` query arguments after `.strip()`;
      "" stands for an argument that was not given. */
  datatype ActivityFilter = ActivityFilter(date: string, fromDate: string, toDate: string)

  /** The WHERE clause: an exact date, when given, is the only condition;
      otherwise each bound that is given applies, both inclusive, comparing
      the date part as text. */
  predicate Matches(f: ActivityFilter, e: AuditEntry) {
    var d := DatePart(e.createdAt);
    if f.date != "" then d == f.date
    else (f.fromDate == "" || StrLe(f.fromDate, d)) && (f.toDate == "" || StrLe(d, f.toDate))
  }

  /** The audit rows the WHERE clause keeps, in log order. Each row occurs as
      often as in the log when it matches, and not at all otherwise. */
  function Select(log: seq<AuditEntry>, f: ActivityFilter): (r: seq<AuditEntry>)
    ensures forall e :: multiset(r)[e] == if Matches(f, e) then multiset(log)[e] else 0
    ensures |r| <= |log|
    decreases |log|
  {
    if |log| == 0 then []
    else
      var init := log[..|log| - 1];
      var last := log[|log| - 1];
      assert log == init + [last];
      Select(init, f) + (if Matches(f, last) then [last] else [])
  }

  function CreatedAt(e: AuditEntry): string {
    e.createdAt
  }

  /** `activity`: the matching rows, newest first, cut at 500. Fewer than 500
      matches are all listed; when more match, the 500 listed are the newest
      and every row left out is no newer than any row listed. */
  function ActivityQuery(log: seq<AuditEntry>, f: ActivityFilter): (r: seq<AuditEntry>)
    ensures |r| <= ActivityLimit
    ensures |r| == if |Select(log, f)| < ActivityLimit then |Select(log, f)| else ActivityLimit
    ensures multiset(r) <= multiset(Select(log, f))
    ensures |Select(log, f)| <= ActivityLimit ==> multiset(r) == multiset(Select(log, f))
    ensures Descending(r, CreatedAt)
    ensures forall e | e in multiset(Select(log, f)) - multiset(r) :: AllAtLeast(r, CreatedAt, e.createdAt)
  {
    TopDesc(Select(log, f), CreatedAt, ActivityLimit)
  }

  /** Every listed row is an audit row that passes the filter. */
  lemma ActivityRowsMatch(log: seq<AuditEntry>, f: ActivityFilter)
    ensures forall e | e in ActivityQuery(log, f) :: e in log && Matches(f, e)
  {
    var r := ActivityQuery(log, f);
    forall e | e in r ensures e in log && Matches(f, e) {
      assert e in multiset(r);
      assert multiset(Select(log, f))[e] > 0;
    }
  }

  /** Filters that agree on every row select the same rows. */
  lemma {:induction false} SelectSameRows(log: seq<AuditEntry>, f: ActivityFilter, g: ActivityFilter)
    requires forall e :: Matches(f, e) == Matches(g, e)
    ensures Select(log, f) == Select(log, g)
    decreases |log|
  {
    if |log| > 0 {
      SelectSameRows(log[..|log| - 1], f, g);
    }
  }

  /** Given an exact date, the from/to bounds are ignored: the page is the
      same as for that date alone. */
  lemma ExactDateSuppressesRange(log: seq<AuditEntry>, date: string, fromDate: string, toDate: string)
    requires date != ""
    ensures ActivityQuery(log, ActivityFilter(date, fromDate, toDate)) == ActivityQuery(log, ActivityFilter(date, "", ""))
  {
    SelectSameRows(log, ActivityFilter(date, fromDate, toDate), ActivityFilter(date, "", ""));
  }

  /** Only the day counts, never the time of day: two rows logged on the
      same day pass or fail every filter together. */
  lemma MatchesIgnoresTime(f: ActivityFilter, a: AuditEntry, b: AuditEntry)
    requires DatePart(a.createdAt) == DatePart(b.createdAt)
    ensures Matches(f, a) <==> Matches(f, b)
  {
  }

  /** A row logged on a day after the upper bound is never listed, and
      neither is one before the lower bound, unless an exact date is given. */
  lemma RangeExcludesOutside(f: ActivityFilter, e: AuditEntry)
    requires f.date == ""
    ensures f.toDate != "" && !StrLe(DatePart(e.createdAt), f.toDate) ==> !Matches(f, e)
    ensures f.fromDate != "" && !StrLe(f.fromDate, DatePart(e.createdAt)) ==> !Matches(f, e)
    ensures f.fromDate == "" && f.toDate == "" ==> Matches(f, e)
  {
  }

  /** With no filter at all every row is selected. */
  lemma NoFilterSelectsAll(log: seq<AuditEntry>)
    ensures multiset(Select(log, ActivityFilter("", "", ""))) == multiset(log)
  {
  }

  /** An exact date selects the same rows as the range from that date to
      that same date. */
  lemma ExactDateIsOneDayRange(date: string, e: AuditEntry)
    requires date != ""
    ensures Matches(ActivityFilter(date, "", ""), e) <==> Matches(ActivityFilter("", date, date), e)
  {
    var d := DatePart(e.createdAt);
    if StrLe(date, d) && StrLe(d, date) {
      StrLeAntisymmetric(date, d);
    }
    if d == date {
      StrLeReflexive(d);
    }
  }

  function UpdatedAt(e: HistoryEntry): string {
    e.updatedAt
  }

  /** The history table of `tracker_job_detail`: the job's rows ordered by
      `updated_at`, oldest first. The page is only reached for a job that
      exists; for a missing job the route redirects before this query. */
  function HistoryView(h: seq<HistoryEntry>, jobId: JobId): (r: seq<HistoryEntry>)
    ensures forall e :: e in r <==> e in h && e.jobId == jobId
    ensures multiset(r) == multiset(HistoryOf(h, jobId))
    ensures Ascending(r, UpdatedAt)
  {
    var mine := HistoryOf(h, jobId);
    var r := SortAsc(mine, UpdatedAt);
    assert forall e :: e in r <==> e in multiset(r);
    assert forall e :: e in mine <==> e in multiset(mine);
    r
  }

  /** After a stage update the job's history page shows one more row, the
      one just written, and everything it showed before. */
  lemma HistoryViewAfterUpdate(s: Store, role: string, actor: UserId, jobId: JobId,
                               req: Forms.StageRequest, now: Timestamp)
    requires role in StaffRoles && jobId in s.jobs
    ensures var t := TrackerUpdate(s, role, actor, jobId, req, now).value;
            multiset(HistoryView(t.history, jobId))
              == multiset(HistoryView(s.history, jobId)) + multiset{t.history[|t.history| - 1]}
  {
    var t := TrackerUpdate(s, role, actor, jobId, req, now).value;
    HistoryOfAppend(s.history, t.history[|s.history|], jobId);
    assert s.history + [t.history[|s.history|]] == t.history;
  }
}
