/** Calendar arithmetic behind the backup reminder: `add_one_month`, which
    computes the next due date of a backup, and `backup_status`, which
    classifies a due date against today. Dates are proleptic Gregorian
    dates in Python's supported range (years 1 to 9999); day counts follow
    the ordinal numbering Python's `date` subtraction uses. */
module Calendar {
  import opened Base

  datatype Date = Date(year: int, month: int, day: int)

  const MinYear: int := 1
  const MaxYear: int := 9999

  predicate IsLeap(y: int) {
    y % 4 == 0 && (y % 100 != 0 || y % 400 == 0)
  }

  /** `calendar.monthrange(y, m)[1]`. */
  function DaysInMonth(y: int, m: int): (n: int)
    requires 1 <= m <= 12
    ensures 28 <= n <= 31
    ensures m < 12 ==> n == DaysBeforeMonth(y, m + 1) - DaysBeforeMonth(y, m)
    ensures m == 12 ==> n == DaysInYear(y) - DaysBeforeMonth(y, 12)
  {
    if m == 2 then (if IsLeap(y) then 29 else 28)
    else if m == 4 || m == 6 || m == 9 || m == 11 then 30
    else 31
  }

  function DaysInYear(y: int): int {
    if IsLeap(y) then 366 else 365
  }

  predicate Valid(d: Date) {
    && MinYear <= d.year <= MaxYear
    && 1 <= d.month <= 12
    && 1 <= d.day <= DaysInMonth(d.year, d.month)
  }

  /** The values a Python `date` object can hold. */
  type CivilDate = d: Date | Valid(d) witness Date(1, 1, 1)

  /** Calendar order: `a` is an earlier day than `b`. */
  predicate Before(a: Date, b: Date) {
    || a.year < b.year
    || (a.year == b.year && (a.month < b.month || (a.month == b.month && a.day < b.day)))
  }

  /** Days in the years before `y` (CPython's `_days_before_year`). */
  function DaysBeforeYear(y: int): int {
    var p := y - 1;
    p * 365 + p / 4 - p / 100 + p / 400
  }

  /** Days in the months of year `y` before month `m`
      (CPython's `_days_before_month`). */
  function DaysBeforeMonth(y: int, m: int): int
    requires 1 <= m <= 12
  {
    [0, 31, 59, 90, 120, 151, 181, 212, 243, 273, 304, 334][m - 1]
      + (if m > 2 && IsLeap(y) then 1 else 0)
  }

  /** Day number of a date, 1 for 0001-01-01 (CPython's `_ymd2ord`). The
      `.days` of a difference of two dates is the difference of their
      ordinals. */
  function Ordinal(d: CivilDate): int {
    DaysBeforeYear(d.year) + DaysBeforeMonth(d.year, d.month) + d.day
  }

  lemma DivStep(n: int, k: int)
    requires n >= 1 && k >= 1
    ensures n / k - (n - 1) / k == if n % k == 0 then 1 else 0
  {
    var q := (n - 1) / k;
    var r := (n - 1) % k;
    assert n - 1 == q * k + r && 0 <= r < k;
    if r == k - 1 {
      assert n == (q + 1) * k;
      LemmaDivUnique(n, k, q + 1, 0);
    } else {
      assert n == q * k + (r + 1);
      LemmaDivUnique(n, k, q, r + 1);
    }
  }

  lemma LemmaDivUnique(n: int, k: int, q: int, r: int)
    requires k >= 1 && 0 <= r < k && n == q * k + r
    ensures n / k == q && n % k == r
  {
    var d := q - n / k;
    assert d * k == n % k - r;
    MulAwayFromZero(d, k);
  }

  lemma MulAwayFromZero(d: int, k: int)
    requires k >= 1
    ensures d >= 1 ==> d * k >= k
    ensures d <= -1 ==> d * k <= -k
  {
  }

  /** Moving from the start of year `y` to the start of year `y + 1` adds
      the length of year `y`. */
  lemma DaysBeforeNextYear(y: int)
    requires y >= 1
    ensures DaysBeforeYear(y + 1) == DaysBeforeYear(y) + DaysInYear(y)
  {
    DivStep(y, 4);
    DivStep(y, 100);
    DivStep(y, 400);
    if y % 100 == 0 {
      LemmaDivUnique(y, 4, 25 * (y / 100), 0);
    }
    if y % 400 == 0 {
      LemmaDivUnique(y, 100, 4 * (y / 400), 0);
    }
  }

  lemma {:induction false} DaysBeforeYearGrows(y1: int, y2: int)
    requires 1 <= y1 < y2
    ensures DaysBeforeYear(y1) + DaysInYear(y1) <= DaysBeforeYear(y2)
    decreases y2 - y1
  {
    DaysBeforeNextYear(y1);
    if y1 + 1 < y2 {
      DaysBeforeYearGrows(y1 + 1, y2);
    }
  }

  lemma DaysBeforeNextMonth(y: int, m: int)
    requires 1 <= m < 12
    ensures DaysBeforeMonth(y, m + 1) == DaysBeforeMonth(y, m) + DaysInMonth(y, m)
  {
  }

  lemma DecemberEndsYear(y: int)
    ensures DaysBeforeMonth(y, 12) + DaysInMonth(y, 12) == DaysInYear(y)
  {
  }

  lemma {:induction false} DaysBeforeMonthGrows(y: int, m1: int, m2: int)
    requires 1 <= m1 < m2 <= 12
    ensures DaysBeforeMonth(y, m1) + DaysInMonth(y, m1) <= DaysBeforeMonth(y, m2)
    decreases m2 - m1
  {
    DaysBeforeNextMonth(y, m1);
    if m1 + 1 < m2 {
      DaysBeforeMonthGrows(y, m1 + 1, m2);
    }
  }

  lemma MonthFitsInYear(y: int, m: int)
    requires 1 <= m <= 12
    ensures DaysBeforeMonth(y, m) + DaysInMonth(y, m) <= DaysInYear(y)
  {
    if m < 12 {
      DaysBeforeMonthGrows(y, m, 12);
    }
    DecemberEndsYear(y);
  }

  /** The ordinal numbering preserves calendar order: an earlier day has a
      smaller day number. */
  lemma OrdinalMonotonic(a: CivilDate, b: CivilDate)
    requires Before(a, b)
    ensures Ordinal(a) < Ordinal(b)
  {
    if a.year < b.year {
      MonthFitsInYear(a.year, a.month);
      DaysBeforeYearGrows(a.year, b.year);
    } else if a.month < b.month {
      DaysBeforeMonthGrows(a.year, a.month, b.month);
    }
  }

  /** Distinct dates have distinct day numbers. */
  lemma OrdinalInjective(a: CivilDate, b: CivilDate)
    requires Ordinal(a) == Ordinal(b)
    ensures a == b
  {
    if Before(a, b) {
      OrdinalMonotonic(a, b);
    } else if Before(b, a) {
      OrdinalMonotonic(b, a);
    }
  }

  /** `add_one_month`: the same day of the next month, clamped to that
      month's length; December rolls over into January of the next year.
      None when the result would fall after year 9999, where Python's
      `date` constructor raises. */
  function AddOneMonth(d: CivilDate): (r: Option<CivilDate>)
    ensures r.None? <==> d.year == MaxYear && d.month == 12
    ensures r.Some? && d.month == 12 ==> r.value.year == d.year + 1 && r.value.month == 1
    ensures r.Some? && d.month < 12 ==> r.value.year == d.year && r.value.month == d.month + 1
    ensures r.Some? ==> r.value.day <= d.day
    ensures r.Some? && r.value.day < d.day ==> r.value.day == DaysInMonth(r.value.year, r.value.month)
  {
    var y2 := if d.month == 12 then d.year + 1 else d.year;
    var m2 := if d.month == 12 then 1 else d.month + 1;
    if y2 > MaxYear then None
    else
      var lastDay := DaysInMonth(y2, m2);
      Some(Date(y2, m2, if d.day < lastDay then d.day else lastDay))
  }

  /** One month later is 28 to 31 days later, and strictly later. */
  lemma OneMonthSpan(d: CivilDate)
    requires AddOneMonth(d).Some?
    ensures Before(d, AddOneMonth(d).value)
    ensures 28 <= Ordinal(AddOneMonth(d).value) - Ordinal(d) <= 31
  {
    var n := AddOneMonth(d).value;
    if d.month == 12 {
      DaysBeforeNextYear(d.year);
      DecemberEndsYear(d.year);
    } else {
      DaysBeforeNextMonth(d.year, d.month);
    }
  }

  /** The classification `backup_status` returns, with the signed number of
      days from today to the due date where one is known. */
  datatype BackupState =
    | Unknown
    | Overdue(days: int)
    | DueSoon(days: int)
    | UpToDate(days: int)

  /** The warning window both callers pass to `backup_status`. */
  const DueSoonDays: int := 5

  /** `backup_status`: `nextDue` is None when the stored due date does not
      parse; `today` is passed in instead of read from the clock. */
  function BackupStatus(nextDue: Option<CivilDate>, today: CivilDate, dueSoonDays: int): (r: BackupState)
    ensures r.Unknown? <==> nextDue.None?
    ensures nextDue.Some? ==> r.days == Ordinal(nextDue.value) - Ordinal(today)
    ensures r.Overdue? <==> nextDue.Some? && Before(nextDue.value, today)
    ensures r.DueSoon? <==> nextDue.Some? && !Before(nextDue.value, today) && r.days <= dueSoonDays
    ensures r.UpToDate? ==> r.days > dueSoonDays && r.days >= 0
    ensures nextDue.Some? ==> (r.days == 0 <==> nextDue.value == today)
  {
    match nextDue
    case None => Unknown
    case Some(due) =>
      var delta := Ordinal(due) - Ordinal(today);
      assert delta < 0 <==> Before(due, today) by {
        if Before(due, today) {
          OrdinalMonotonic(due, today);
        } else if due != today {
          assert Before(today, due);
          OrdinalMonotonic(today, due);
        }
      }
      assert delta == 0 ==> due == today by {
        if delta == 0 { OrdinalInjective(due, today); }
      }
      if delta < 0 then Overdue(delta)
      else if delta <= dueSoonDays then DueSoon(delta)
      else UpToDate(delta)
  }

  /** A backup recorded today, whose next due date is one month on, shows
      as up to date (28 to 31 days left) with the window both callers use. */
  lemma FreshBackupIsUpToDate(today: CivilDate)
    requires AddOneMonth(today).Some?
    ensures BackupStatus(AddOneMonth(today), today, DueSoonDays).UpToDate?
    ensures 28 <= BackupStatus(AddOneMonth(today), today, DueSoonDays).days <= 31
  {
    OneMonthSpan(today);
  }
}
