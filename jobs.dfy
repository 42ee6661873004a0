/** Job enumeration for one scenario (kinetic_energy.py:41-47): every year, then
    every month, then four week-long calendar windows starting on days 1, 8, 15
    and 22. Also the calendar check that `datetime.date` applies to a job
    (kinetic_energy.py:54) and the read window around a job's start (line 59). */
module Jobs {
  import opened Collections

  /** One calendar window: `[year, month, week*7.0+1]`. The source stores the day
      as a float and converts it with `int(day)`; the model keeps the integer. */
  datatype Job = Job(year: int, month: int, day: int)

  const WeeksPerMonth: nat := 4
  const DaysPerWeek: nat := 7

  /** The first day of the window for `week` in `range(4)`. */
  function WeekStartDay(week: int): int {
    week * DaysPerWeek + 1
  }

  /** The four jobs generated for one (year, month) pair, in week order. */
  function MonthJobs(year: int, month: int): seq<Job> {
    seq(WeeksPerMonth, w => Job(year, month, WeekStartDay(w)))
  }

  /** The jobs generated for one year, month by month in the order given. */
  function YearJobs(year: int, months: seq<int>): seq<Job> {
    if months == [] then []
    else YearJobs(year, months[..|months| - 1]) + MonthJobs(year, months[|months| - 1])
  }

  /** The whole job list: year outermost, then month, then week. */
  function JobList(years: seq<int>, months: seq<int>): seq<Job> {
    if years == [] then []
    else JobList(years[..|years| - 1], months) + YearJobs(years[|years| - 1], months)
  }

  /** Builds `pars` by appending inside three nested loops (kinetic_energy.py:41-45). */
  method EnumerateJobs(years: seq<int>, months: seq<int>) returns (pars: seq<Job>)
    ensures pars == JobList(years, months)
  {
    pars := [];
    for i := 0 to |years|
      invariant pars == JobList(years[..i], months)
    {
      var year := years[i];
      for j := 0 to |months|
        invariant pars == JobList(years[..i], months) + YearJobs(year, months[..j])
      {
        var month := months[j];
        for week := 0 to WeeksPerMonth
          invariant pars == JobList(years[..i], months) + YearJobs(year, months[..j]) + MonthJobs(year, month)[..week]
        {
          pars := pars + [Job(year, month, week * DaysPerWeek + 1)];
        }
        assert months[..j + 1][..j] == months[..j];
      }
      assert months[..|months|] == months;
      assert years[..i + 1][..i] == years[..i];
    }
    assert years[..|years|] == years;
  }

  lemma {:induction false} YearJobsLength(year: int, months: seq<int>)
    ensures |YearJobs(year, months)| == WeeksPerMonth * |months|
  {
    if months != [] {
      YearJobsLength(year, months[..|months| - 1]);
    }
  }

  /** The job list has exactly 4 * |years| * |months| entries; duplicates in the
      inputs are not removed. */
  lemma {:induction false} JobsLength(years: seq<int>, months: seq<int>)
    ensures |JobList(years, months)| == WeeksPerMonth * |years| * |months|
  {
    if years != [] {
      JobsLength(years[..|years| - 1], months);
      YearJobsLength(years[|years| - 1], months);
      assert WeeksPerMonth * |years| * |months|
          == WeeksPerMonth * (|years| - 1) * |months| + WeeksPerMonth * |months|;
    }
  }

  lemma {:induction false} YearJobsAt(year: int, months: seq<int>, j: nat, w: nat)
    requires j < |months| && w < WeeksPerMonth
    ensures |YearJobs(year, months)| == WeeksPerMonth * |months|
    ensures YearJobs(year, months)[WeeksPerMonth * j + w] == Job(year, months[j], WeekStartDay(w))
  {
    var init := months[..|months| - 1];
    YearJobsLength(year, init);
    YearJobsLength(year, months);
    if j < |months| - 1 {
      YearJobsAt(year, init, j, w);
    }
  }

  /** Position (i*|months| + j)*4 + w holds year i, month j, week w: year is the
      outermost loop, then month, then week. */
  lemma {:induction false} JobsAt(years: seq<int>, months: seq<int>, i: nat, j: nat, w: nat)
    requires i < |years| && j < |months| && w < WeeksPerMonth
    ensures |JobList(years, months)| == WeeksPerMonth * |years| * |months|
    ensures WeeksPerMonth * (i * |months| + j) + w < |JobList(years, months)|
    ensures JobList(years, months)[WeeksPerMonth * (i * |months| + j) + w]
         == Job(years[i], months[j], WeekStartDay(w))
  {
    var n, m := |years|, |months|;
    var init := years[..n - 1];
    JobsLength(years, months);
    JobsLength(init, months);
    assert JobList(years, months) == JobList(init, months) + YearJobs(years[n - 1], months);
    PositionSplit(n, m, i, j, w);
    if i < n - 1 {
      JobsAt(init, months, i, j, w);
    } else {
      YearJobsAt(years[n - 1], months, j, w);
    }
  }

  /** Where position (i*m + j)*4 + w falls relative to the jobs of the last year. */
  lemma PositionSplit(n: nat, m: nat, i: nat, j: nat, w: nat)
    requires i < n && j < m && w < WeeksPerMonth
    ensures i < n - 1 ==> WeeksPerMonth * (i * m + j) + w < WeeksPerMonth * (n - 1) * m
    ensures i == n - 1 ==> WeeksPerMonth * (i * m + j) + w == WeeksPerMonth * (n - 1) * m + (WeeksPerMonth * j + w)
    ensures WeeksPerMonth * (i * m + j) + w < WeeksPerMonth * n * m
  {
    assert WeeksPerMonth * (n - 1) * m == WeeksPerMonth * ((n - 1) * m);
    assert WeeksPerMonth * n * m == WeeksPerMonth * ((n - 1) * m) + WeeksPerMonth * m;
    if i < n - 1 {
      MulMonotone(i + 1, n - 1, m);
      assert (i + 1) * m == i * m + m;
    }
  }

  /** Positions of the same month and week in two different years are ordered by year. */
  lemma PositionOrder(n: nat, m: nat, i1: nat, i2: nat, j: nat, w: nat)
    requires i1 < i2 < n && j < m && w < WeeksPerMonth
    ensures WeeksPerMonth * (i1 * m + j) + w < WeeksPerMonth * (i2 * m + j) + w
  {
  }

  lemma MulMonotone(a: nat, b: nat, m: nat)
    requires a <= b
    ensures a * m <= b * m
  {
  }

  /** Every day a job starts on is one of 1, 8, 15, 22. */
  predicate IsWeekStart(day: int) {
    day == 1 || day == 8 || day == 15 || day == 22
  }

  lemma MonthJobsMember(year: int, month: int, job: Job)
    ensures job in MonthJobs(year, month) <==> job.year == year && job.month == month && IsWeekStart(job.day)
  {
    if job.year == year && job.month == month && IsWeekStart(job.day) {
      assert MonthJobs(year, month)[(job.day - 1) / DaysPerWeek] == job;
    }
  }

  lemma {:induction false} YearJobsMember(year: int, months: seq<int>, job: Job)
    ensures job in YearJobs(year, months) <==> job.year == year && job.month in months && IsWeekStart(job.day)
  {
    if months != [] {
      var init, last := months[..|months| - 1], months[|months| - 1];
      YearJobsMember(year, init, job);
      MonthJobsMember(year, last, job);
      assert months == init + [last];
    }
  }

  /** A job is in the list exactly when its year is one of the years, its month
      one of the months, and its day a week start. */
  lemma {:induction false} JobsMember(years: seq<int>, months: seq<int>, job: Job)
    ensures job in JobList(years, months) <==> job.year in years && job.month in months && IsWeekStart(job.day)
  {
    if years != [] {
      var init, last := years[..|years| - 1], years[|years| - 1];
      JobsMember(init, months, job);
      YearJobsMember(last, months, job);
      assert years == init + [last];
    }
  }

  lemma {:induction false} YearJobsDistinct(year: int, months: seq<int>)
    requires Distinct(months)
    ensures Distinct(YearJobs(year, months))
  {
    if months != [] {
      var init, last := months[..|months| - 1], months[|months| - 1];
      DistinctInit(months);
      YearJobsDistinct(year, init);
      forall x | x in YearJobs(year, init) ensures x !in MonthJobs(year, last) {
        YearJobsMember(year, init, x);
      }
      DistinctConcat(YearJobs(year, init), MonthJobs(year, last));
    }
  }

  /** Without duplicate years or months, no job is generated twice. */
  lemma {:induction false} JobsDistinct(years: seq<int>, months: seq<int>)
    requires Distinct(years) && Distinct(months)
    ensures Distinct(JobList(years, months))
  {
    if years != [] {
      var init, last := years[..|years| - 1], years[|years| - 1];
      DistinctInit(years);
      JobsDistinct(init, months);
      YearJobsDistinct(last, months);
      forall x | x in JobList(init, months) ensures x !in YearJobs(last, months) {
        JobsMember(init, months, x);
        YearJobsMember(last, months, x);
      }
      DistinctConcat(JobList(init, months), YearJobs(last, months));
    }
  }

  /** A year given twice yields its jobs twice, at two different positions: there
      is no deduplication. */
  lemma DuplicateYearRepeatsJobs(years: seq<int>, months: seq<int>, i1: nat, i2: nat, j: nat, w: nat)
    requires i1 < i2 < |years| && years[i1] == years[i2] && j < |months| && w < WeeksPerMonth
    ensures WeeksPerMonth * (i1 * |months| + j) + w < WeeksPerMonth * (i2 * |months| + j) + w < |JobList(years, months)|
    ensures JobList(years, months)[WeeksPerMonth * (i1 * |months| + j) + w]
         == JobList(years, months)[WeeksPerMonth * (i2 * |months| + j) + w]
  {
    JobsAt(years, months, i1, j, w);
    JobsAt(years, months, i2, j, w);
    PositionOrder(|years|, |months|, i1, i2, j, w);
  }

  /** A month given twice yields its jobs twice within every year, at two
      different positions. */
  lemma DuplicateMonthRepeatsJobs(years: seq<int>, months: seq<int>, i: nat, j1: nat, j2: nat, w: nat)
    requires i < |years| && j1 < j2 < |months| && months[j1] == months[j2] && w < WeeksPerMonth
    ensures WeeksPerMonth * (i * |months| + j1) + w < WeeksPerMonth * (i * |months| + j2) + w < |JobList(years, months)|
    ensures JobList(years, months)[WeeksPerMonth * (i * |months| + j1) + w]
         == JobList(years, months)[WeeksPerMonth * (i * |months| + j2) + w]
  {
    JobsAt(years, months, i, j1, w);
    JobsAt(years, months, i, j2, w);
  }

  // Calendar validity as checked by Python's datetime.date(year, month, day).

  const MinYear: int := 1
  const MaxYear: int := 9999

  predicate IsLeapYear(year: int) {
    year % 4 == 0 && (year % 100 != 0 || year % 400 == 0)
  }

  function DaysInMonth(year: int, month: int): int
    requires 1 <= month <= 12
  {
    if month == 2 then (if IsLeapYear(year) then 29 else 28)
    else if month == 4 || month == 6 || month == 9 || month == 11 then 30
    else 31
  }

  /** `datetime.date(year, month, day)` succeeds exactly for these jobs; for any
      other it raises ValueError. */
  predicate IsValidDate(job: Job) {
    && MinYear <= job.year <= MaxYear
    && 1 <= job.month <= 12
    && 1 <= job.day <= DaysInMonth(job.year, job.month)
  }

  /** The day of every generated job is a valid day of its month, so only the
      configured year and month can make `datetime.date` fail. */
  lemma JobDateValidity(years: seq<int>, months: seq<int>, job: Job)
    requires job in JobList(years, months)
    ensures IsValidDate(job) <==> MinYear <= job.year <= MaxYear && 1 <= job.month <= 12
  {
    JobsMember(years, months, job);
  }

  // The measurement read window of a job (kinetic_energy.py:59).

  const SecondsPerHour: int := 3600
  const SecondsPerWeek: int := 7 * 24 * SecondsPerHour

  /** A closed interval of epoch seconds, `read_data(t0=start, t1=end)`. */
  datatype Window = Window(start: int, end: int)

  /** The window read for a job whose week starts at epoch second t0: the week
      itself padded by one hour on each side. */
  function ReadWindow(t0: int): (w: Window)
    ensures w.end - w.start == SecondsPerWeek + 2 * SecondsPerHour
    ensures w.start < t0 && t0 + SecondsPerWeek < w.end
    ensures t0 - w.start == w.end - (t0 + SecondsPerWeek)
  {
    Window(t0 - SecondsPerHour, t0 + SecondsPerWeek + SecondsPerHour)
  }
}
