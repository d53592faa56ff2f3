/** The domain service: the reading lifecycle (start, update progress, complete), the lending
    guard, and the reading analytics over a book's progress events (statistics, streak,
    consistency classification and pace). */
module DomainService {
  import opened Wrappers
  import opened Doubles
  import opened Time
  import opened Sequences
  import Enums
  import Books
  import opened Progress
  import opened Lendings

  type Book = Books.Book

  datatype BookReadingStats = BookReadingStats(
    percentageComplete: Double,
    averageMinutesPerPage: Option<real>,
    estimatedTimeToComplete: Option<int>,
    daysReading: int,
    currentStreak: int)

  datatype ReadingPace = ReadingPace(
    pagesPerHour: Option<real>,
    estimatedDaysToComplete: Option<int>,
    readingConsistency: ReadingConsistency)

  /** How evenly spaced the reading days are, best first. */
  datatype ReadingConsistency = Excellent | Good | Irregular | Poor

  // ---------------------------------------------------------------------------------------
  // The reading lifecycle

  /** Starting is refused for a book being read or already read; otherwise the book becomes in
      progress, started and last read `now`. */
  function StartReading(book: Book, now: Timestamp): (r: Result<Book>)
    ensures r.Success? <==> book.status == Enums.NotStarted || book.status == Enums.OnHold
    ensures r.Failure? ==> r.error.IllegalArgument?
    ensures r.Success? ==> r.value == Books.StartReading(book, now)
  {
    if book.IsCurrentlyReading() then Failure(IllegalArgument("Book is already being read"))
    else if book.IsRead() then Failure(IllegalArgument("Book has already been read"))
    else Success(book.(status := Enums.InProgress, startedReading := Some(now), lastReadAt := Some(now)))
  }

  /** Moving the bookmark is allowed only while reading, never backwards and never past the last
      page. Reaching the known last page completes the book and stamps `dateRead`; otherwise
      `dateRead` is cleared. `minutesRead` does not affect the book. */
  function UpdateReadingProgress(book: Book, currentPage: int, minutesRead: Option<int>, now: Timestamp): (r: Result<Book>)
    ensures r.Success? <==>
      && book.status == Enums.InProgress
      && currentPage >= book.currentPage
      && (book.totalPages.None? || currentPage <= book.totalPages.value)
    ensures r.Failure? ==> r.error.IllegalArgument?
    ensures r.Success? ==>
      && r.value.currentPage == currentPage
      && r.value.lastReadAt == Some(now)
      && (r.value.status == Enums.Completed <==> book.totalPages.Some? && currentPage >= book.totalPages.value)
      && (r.value.status != Enums.Completed ==> r.value.status == Enums.InProgress)
      && (r.value.dateRead.Some? <==> r.value.status == Enums.Completed)
      && (r.value.dateRead.Some? ==> r.value.dateRead.value == now)
      && r.value == book.(currentPage := currentPage, lastReadAt := Some(now),
                          status := r.value.status, dateRead := r.value.dateRead)
  {
    if !book.IsCurrentlyReading() then Failure(IllegalArgument("Book is not currently being read"))
    else if currentPage < book.currentPage then Failure(IllegalArgument("New page number cannot be less than current page"))
    else if !(book.totalPages.None? || currentPage <= book.totalPages.value) then
      Failure(IllegalArgument("Page number cannot exceed total pages"))
    else
      var newStatus := if book.totalPages.Some? && currentPage >= book.totalPages.value then Enums.Completed else Enums.InProgress;
      Success(book.(
        currentPage := currentPage,
        lastReadAt := Some(now),
        status := newStatus,
        dateRead := if newStatus == Enums.Completed then Some(now) else None))
  }

  /** Completing needs a book being read and a rating that is absent or from 1 to 5; the bookmark
      moves to the last page when the page count is known. */
  function CompleteReading(book: Book, rating: Option<int>, now: Timestamp): (r: Result<Book>)
    ensures r.Success? <==> book.status == Enums.InProgress && (rating.None? || 1 <= rating.value <= 5)
    ensures r.Failure? ==> r.error.IllegalArgument?
    ensures r.Success? ==>
      && r.value.status == Enums.Completed
      && r.value.dateRead == Some(now)
      && r.value.rating == rating
      && r.value.currentPage == (if book.totalPages.Some? then book.totalPages.value else book.currentPage)
      && r.value == book.(status := Enums.Completed, dateRead := Some(now), rating := rating,
                          currentPage := r.value.currentPage)
  {
    if !book.IsCurrentlyReading() then Failure(IllegalArgument("Book is not currently being read"))
    else if !(rating.None? || 1 <= rating.value <= 5) then Failure(IllegalArgument("Rating must be between 1 and 5"))
    else
      Success(book.(
        status := Enums.Completed,
        dateRead := Some(now),
        rating := rating,
        currentPage := if book.totalPages.Some? then book.totalPages.value else book.currentPage))
  }

  /** A completed book is final: none of the three transitions accepts it. */
  lemma CompletedIsFinal(book: Book, page: int, minutes: Option<int>, rating: Option<int>, now: Timestamp)
    requires book.status == Enums.Completed
    ensures StartReading(book, now).Failure?
    ensures UpdateReadingProgress(book, page, minutes, now).Failure?
    ensures CompleteReading(book, rating, now).Failure?
  {
  }

  /** Starting an unread book and moving to its last page completes it, with `dateRead` set. */
  lemma ReadThrough(book: Book, now: Timestamp, later: Timestamp)
    requires book.status == Enums.NotStarted && book.totalPages.Some?
    requires book.currentPage <= book.totalPages.value
    ensures StartReading(book, now).Success?
    ensures var started := StartReading(book, now).value;
      && UpdateReadingProgress(started, book.totalPages.value, None, later).Success?
      && UpdateReadingProgress(started, book.totalPages.value, None, later).value.status == Enums.Completed
      && UpdateReadingProgress(started, book.totalPages.value, None, later).value.dateRead == Some(later)
  {
  }

  /** Where the domain update succeeds it agrees with the companion helper on page, status and
      last-read time; it differs in also managing `dateRead` and in refusing backward moves. */
  lemma DomainUpdateRefinesCompanion(book: Book, page: int, minutes: Option<int>, now: Timestamp)
    requires page <= IntMax
    requires UpdateReadingProgress(book, page, minutes, now).Success?
    ensures Books.UpdateReadingProgress(book, page, now).Success?
    ensures var d := UpdateReadingProgress(book, page, minutes, now).value;
      var c := Books.UpdateReadingProgress(book, page, now).value;
      d == c.(dateRead := d.dateRead)
  {
  }

  /** A book can be lent unless it is being read or in poor condition. */
  function CanBeLent(book: Book): (r: bool)
    ensures r <==> book.status != Enums.InProgress && book.condition != Enums.BookCondition.Poor
  {
    !book.IsCurrentlyReading() && book.condition != Enums.BookCondition.Poor
  }

  /** Starting to read a book always makes it unlendable; completing it restores lendability
      unless the copy is in poor condition. */
  lemma LendabilityFollowsReading(book: Book, rating: Option<int>, now: Timestamp)
    ensures StartReading(book, now).Success? ==> !CanBeLent(StartReading(book, now).value)
    ensures CompleteReading(book, rating, now).Success? ==>
      (CanBeLent(CompleteReading(book, rating, now).value) <==> book.condition != Enums.BookCondition.Poor)
  {
  }

  /** The domain's overdue check agrees with the lending's own. */
  function IsOverdue(book: Book, lending: BookLending, now: Timestamp): (r: bool)
    ensures r == lending.IsOverdue(now)
  {
    lending.actualReturnDate.None? && now > lending.expectedReturnDate
  }

  // ---------------------------------------------------------------------------------------
  // Reading analytics

  /** The pages the event `x` of `vp` adds: its page minus the page of the record just before
      the first record equal to `x`, or minus 0 when that first record opens the list. */
  function DeltaOf(vp: seq<ReadingProgress>, x: ReadingProgress): int {
    var k := FirstIndex(vp, x);
    x.currentPage - (if k >= 1 then vp[k - 1].currentPage else 0)
  }

  function DeltaFn(vp: seq<ReadingProgress>): ReadingProgress -> int {
    x => DeltaOf(vp, x)
  }

  /** The total pages read over `vp`: the sum of every record's delta. */
  function DeltaSum(vp: seq<ReadingProgress>): int {
    SumOf(vp, DeltaFn(vp))
  }

  /** Among distinct records each delta is the record's daily progress against its predecessor. */
  lemma DeltaIsDailyProgress(vp: seq<ReadingProgress>, i: int)
    requires NoDuplicates(vp) && 0 <= i < |vp|
    ensures DeltaOf(vp, vp[i]) == vp[i].CalculateDailyProgress(if i == 0 then None else Some(vp[i - 1]))
  {
    assert FirstIndex(vp, vp[i]) == i;
  }

  lemma {:induction false} DeltaSuffix(vp: seq<ReadingProgress>, j: int)
    requires NoDuplicates(vp) && 0 <= j < |vp|
    ensures SumOf(vp[j..], DeltaFn(vp)) == vp[|vp| - 1].currentPage - (if j == 0 then 0 else vp[j - 1].currentPage)
    decreases |vp| - j
  {
    assert vp[j..][1..] == vp[j + 1..];
    DeltaIsDailyProgress(vp, j);
    if j + 1 < |vp| {
      DeltaSuffix(vp, j + 1);
    }
  }

  /** Over distinct records the deltas telescope: the pages read are the page of the last record
      of the list. */
  lemma DeltaSumTelescopes(vp: seq<ReadingProgress>)
    requires NoDuplicates(vp) && vp != []
    ensures DeltaSum(vp) == vp[|vp| - 1].currentPage
  {
    DeltaSuffix(vp, 0);
    assert vp[0..] == vp;
  }

  /** Minutes per page over the records that carry minutes: total minutes over total pages read,
      absent when no record has minutes or the pages read are not positive. */
  function AverageMinutesPerPage(progress: seq<ReadingProgress>): (r: Option<real>)
    ensures r.Some? ==> DeltaSum(Filter(progress, HasMinutes)) > 0
    ensures r.Some? && (forall i :: 0 <= i < |progress| ==> MinutesOf(progress[i]) >= 0) ==> r.value >= 0.0
  {
    var vp := Filter(progress, HasMinutes);
    MinutesNonNegative(vp);
    if |vp| > 0 then
      var totalMinutes := SumOf(vp, MinutesOf);
      var totalPagesRead := DeltaSum(vp);
      if totalPagesRead > 0 then Some(totalMinutes as real / totalPagesRead as real) else None
    else None
  }

  /** The minutes left: the remaining pages times the minutes per page, truncated to an `Int`. */
  function EstimatedTimeToComplete(totalPages: int, currentPage: int, averageMinutesPerPage: Option<real>): (r: Option<int>)
    ensures r.Some? <==> averageMinutesPerPage.Some?
    ensures r.Some? && currentPage <= totalPages && averageMinutesPerPage.value >= 0.0 ==> r.value >= 0
    ensures r.Some? && currentPage == totalPages ==> r.value == 0
  {
    if averageMinutesPerPage.Some? then
      Some(ToInt(Finite((totalPages - currentPage) as real * averageMinutesPerPage.value)))
    else None
  }

  /** The statistics `calculateReadingStats` reports. */
  function ReadingStatsOf(book: Book, progress: seq<ReadingProgress>): BookReadingStats {
    if book.totalPages.None? then BookReadingStats(Finite(0.0), None, None, 0, 0)
    else
      var totalPages := book.totalPages.value;
      var averageMinutesPerPage := AverageMinutesPerPage(progress);
      var estimatedTimeToComplete := EstimatedTimeToComplete(totalPages, book.currentPage, averageMinutesPerPage);
      var days := ReadingDays(progress);
      BookReadingStats(
        Scale(Quotient(book.currentPage as real, totalPages as real), 100.0),
        averageMinutesPerPage,
        estimatedTimeToComplete,
        |days|,
        LeadingRun(days))
  }

  /** Without a page count every statistic is zero or absent; with one, the days read are the
      distinct calendar days of the events, the streak is at most that many and is zero exactly
      when there are no events, and a time estimate exists exactly when a per-page rate does. */
  lemma ReadingStatsBounds(book: Book, progress: seq<ReadingProgress>)
    ensures var s := ReadingStatsOf(book, progress);
      && (book.totalPages.None? ==> s == BookReadingStats(Finite(0.0), None, None, 0, 0))
      && (book.totalPages.Some? ==>
        && s.daysReading == |Distinct(Dates(progress))|
        && 0 <= s.currentStreak <= s.daysReading <= |progress|
        && (s.currentStreak == 0 <==> progress == [])
        && s.averageMinutesPerPage == AverageMinutesPerPage(progress)
        && (s.estimatedTimeToComplete.Some? <==> s.averageMinutesPerPage.Some?))
  {
  }

  /** Minutes that are never negative add up to a non-negative total. */
  lemma {:induction false} MinutesNonNegative(vp: seq<ReadingProgress>)
    ensures (forall x :: x in vp ==> MinutesOf(x) >= 0) ==> SumOf(vp, MinutesOf) >= 0
  {
    if vp != [] {
      MinutesNonNegative(vp[1..]);
    }
  }

  /** With a positive page count the reported percentage is the book's own reading progress. */
  lemma PercentageAgreesWithBook(book: Book, progress: seq<ReadingProgress>)
    requires book.totalPages.Some? && book.totalPages.value > 0
    ensures ReadingStatsOf(book, progress).percentageComplete == Finite(book.ReadingProgress().value)
  {
  }

  /** Over distinct timed records whose last page is positive, the minutes per page are the total
      minutes over that last page. */
  lemma MinutesPerPageOfDistinctRecords(book: Book, progress: seq<ReadingProgress>)
    requires book.totalPages.Some?
    requires var vp := Filter(progress, HasMinutes); vp != [] && NoDuplicates(vp) && vp[|vp| - 1].currentPage > 0
    ensures var vp := Filter(progress, HasMinutes);
      ReadingStatsOf(book, progress).averageMinutesPerPage
        == Some(SumOf(vp, MinutesOf) as real / vp[|vp| - 1].currentPage as real)
  {
    DeltaSumTelescopes(Filter(progress, HasMinutes));
  }

  /** `n` is the length of the run of consecutive days that opens `d`. */
  predicate IsLeadingRun(d: seq<Day>, n: int) {
    if |d| == 0 then n == 0
    else
      && 1 <= n <= |d|
      && (forall k :: 1 <= k < n ==> d[k] - 1 == d[k - 1])
      && (n < |d| ==> d[n] - 1 != d[n - 1])
  }

  /** A sequence of days has exactly one leading run. */
  lemma LeadingRunUnique(d: seq<Day>, n: int, m: int)
    requires IsLeadingRun(d, n) && IsLeadingRun(d, m)
    ensures n == m
  {
  }

  function RunEnd(d: seq<Day>, i: int): (n: int)
    requires 1 <= i <= |d|
    requires forall k :: 1 <= k < i ==> d[k] - 1 == d[k - 1]
    ensures i <= n <= |d|
    ensures IsLeadingRun(d, n)
    decreases |d| - i
  {
    if i < |d| && d[i] - 1 == d[i - 1] then RunEnd(d, i + 1) else i
  }

  /** The leading run of `d`. */
  function LeadingRun(d: seq<Day>): (n: int)
    ensures IsLeadingRun(d, n)
  {
    if |d| == 0 then 0 else RunEnd(d, 1)
  }

  /** The leading run of ascending days is made of consecutive calendar days: it spans exactly
      its length. */
  lemma LeadingRunIsConsecutive(d: seq<Day>, k: int)
    requires 0 <= k < LeadingRun(d)
    ensures d[k] == d[0] + k
  {
    var i := 0;
    while i < k
      invariant 0 <= i <= k
      invariant d[i] == d[0] + i
    {
      i := i + 1;
    }
  }

  /** `calculateCurrentStreak`: the number of consecutive days that open the reading history. */
  method CalculateCurrentStreak(progress: seq<ReadingProgress>) returns (currentStreak: int)
    ensures currentStreak == LeadingRun(ReadingDays(progress))
  {
    if |progress| == 0 {
      return 0;
    }
    var sortedDates := ReadingDays(progress);
    currentStreak := 1;
    var i := 1;
    while i < |sortedDates|
      invariant 1 <= i <= |sortedDates|
      invariant currentStreak == i
      invariant forall k :: 1 <= k < i ==> sortedDates[k] - 1 == sortedDates[k - 1]
    {
      if sortedDates[i] - 1 == sortedDates[i - 1] {
        currentStreak := currentStreak + 1;
      } else {
        break;
      }
      i := i + 1;
    }
    LeadingRunUnique(sortedDates, currentStreak, LeadingRun(sortedDates));
  }

  /** `calculateReadingStats`. */
  method CalculateReadingStats(book: Book, progress: seq<ReadingProgress>) returns (stats: BookReadingStats)
    ensures stats == ReadingStatsOf(book, progress)
  {
    if book.totalPages.None? {
      return BookReadingStats(Finite(0.0), None, None, 0, 0);
    }
    var totalPages := book.totalPages.value;
    var averageMinutesPerPage := AverageMinutesPerPage(progress);
    var estimatedTimeToComplete := EstimatedTimeToComplete(totalPages, book.currentPage, averageMinutesPerPage);
    var daysReading := |ReadingDays(progress)|;
    var currentStreak := CalculateCurrentStreak(progress);
    stats := BookReadingStats(
      Scale(Quotient(book.currentPage as real, totalPages as real), 100.0),
      averageMinutesPerPage, estimatedTimeToComplete, daysReading, currentStreak);
  }

  /** The day gaps between neighbouring reading days (`ChronoUnit.DAYS.between` on dates). */
  function Gaps(d: seq<Day>): (g: seq<int>)
    ensures |g| == if |d| == 0 then 0 else |d| - 1
    ensures forall i :: 0 <= i < |g| ==> g[i] == d[i + 1] - d[i]
  {
    if |d| < 2 then [] else seq(|d| - 1, i requires 0 <= i < |d| - 1 => d[i + 1] - d[i])
  }

  /** The gaps between neighbouring days add up to the span from the first day to the last. */
  lemma {:induction false} GapsTelescope(d: seq<Day>)
    requires |d| >= 1
    ensures Sum(Gaps(d)) == d[|d| - 1] - d[0]
  {
    if |d| >= 2 {
      var n := |d|;
      var prefix := d[..n - 1];
      var g := Gaps(d);
      var gp := Gaps(prefix);
      GapsTelescope(prefix);
      assert forall i :: 0 <= i < n - 2 ==> g[i] == gp[i];
      assert g[..n - 2] == gp;
      assert Sum(g) == Sum(gp) + (d[n - 1] - d[n - 2]);
    }
  }

  /** `List<Long>.average()`. */
  function Mean(xs: seq<int>): real
    requires |xs| > 0
  {
    Sum(xs) as real / |xs| as real
  }

  /** The sum of the squared deviations of `xs` from `m`. */
  function SquaredDeviations(xs: seq<int>, m: real): (r: real)
    ensures r >= 0.0
  {
    if xs == [] then 0.0
    else
      var x := xs[|xs| - 1] as real;
      SquaredDeviations(xs[..|xs| - 1], m) + (x - m) * (x - m)
  }

  /** The population variance: the mean squared deviation from the mean. */
  function Variance(xs: seq<int>): (v: real)
    requires |xs| > 0
    ensures v >= 0.0
  {
    SquaredDeviations(xs, Mean(xs)) / |xs| as real
  }

  /** The classification thresholds on the mean gap and the standard deviation of the gaps. A
      standard deviation is the square root of the variance, so, both sides being non-negative,
      `sd <= k` is compared as `variance <= k * k`. */
  function Classify(meanGap: real, variance: real): ReadingConsistency {
    if meanGap <= 1.5 && variance <= 1.0 then Excellent
    else if meanGap <= 2.5 && variance <= 4.0 then Good
    else if meanGap <= 4.0 && variance <= 9.0 then Irregular
    else Poor
  }

  /** The consistency of ascending reading days: poor with fewer than two of them, otherwise
      classified on the gaps between them. */
  function ConsistencyOfDays(dates: seq<Day>): ReadingConsistency {
    if |dates| < 2 then ReadingConsistency.Poor
    else Classify(Mean(Gaps(dates)), Variance(Gaps(dates)))
  }

  /** The consistency of a reading history. */
  function ReadingConsistencyOf(progress: seq<ReadingProgress>): ReadingConsistency {
    if |progress| == 0 then ReadingConsistency.Poor else ConsistencyOfDays(ReadingDays(progress))
  }

  /** `calculateReadingConsistency`: collects the gaps one by one and classifies them. */
  method CalculateReadingConsistency(progress: seq<ReadingProgress>) returns (r: ReadingConsistency)
    ensures r == ReadingConsistencyOf(progress)
  {
    if |progress| == 0 {
      return ReadingConsistency.Poor;
    }
    var dates := ReadingDays(progress);
    if |dates| < 2 {
      return ReadingConsistency.Poor;
    }
    var gaps: seq<int> := [];
    var i := 1;
    while i < |dates|
      invariant 1 <= i <= |dates|
      invariant gaps == Gaps(dates)[..i - 1]
    {
      gaps := gaps + [dates[i] - dates[i - 1]];
      i := i + 1;
    }
    assert gaps == Gaps(dates);
    r := Classify(Mean(gaps), Variance(gaps));
  }

  lemma {:induction false} SumOfConstant(xs: seq<int>, c: int)
    requires forall i :: 0 <= i < |xs| ==> xs[i] == c
    ensures Sum(xs) == c * |xs|
  {
    if xs != [] {
      SumOfConstant(xs[..|xs| - 1], c);
    }
  }

  lemma {:induction false} NoDeviationFromConstant(xs: seq<int>, c: int)
    requires forall i :: 0 <= i < |xs| ==> xs[i] == c
    ensures SquaredDeviations(xs, c as real) == 0.0
  {
    if xs != [] {
      NoDeviationFromConstant(xs[..|xs| - 1], c);
    }
  }

  /** Reading on consecutive days, at least two of them, is excellent. */
  lemma DailyReadingIsExcellent(d: seq<Day>)
    requires |d| >= 2 && forall i :: 1 <= i < |d| ==> d[i] == d[i - 1] + 1
    ensures ConsistencyOfDays(d) == ReadingConsistency.Excellent
  {
    var g := Gaps(d);
    MeanOfConstant(g, 1);
    NoDeviationFromConstant(g, 1);
    assert Variance(g) == 0.0;
  }

  lemma MeanOfConstant(xs: seq<int>, c: int)
    requires |xs| > 0 && forall i :: 0 <= i < |xs| ==> xs[i] == c
    ensures Mean(xs) == c as real
  {
    SumOfConstant(xs, c);
    var n := |xs| as real;
    assert Sum(xs) as real == c as real * n;
  }

  /** A total above `k` times a positive count averages above `k`; kept apart so that the real
      division is proved without the gaps in scope. */
  lemma QuotientAbove(a: real, n: real, k: real)
    requires n > 0.0 && a > k * n
    ensures a / n > k
  {
  }

  /** Days that average more than four days apart are poor, whatever their spread. */
  lemma SparseReadingIsPoor(d: seq<Day>)
    requires |d| >= 2 && d[|d| - 1] - d[0] > 4 * (|d| - 1)
    ensures ConsistencyOfDays(d) == ReadingConsistency.Poor
  {
    var g := Gaps(d);
    GapsTelescope(d);
    QuotientAbove(Sum(g) as real, |g| as real, 4.0);
  }

  /** Pages per hour over the records that carry minutes: total pages read over total minutes,
      times 60; absent when no minutes were recorded. The page total is not required to be
      positive. */
  function PagesPerHour(progress: seq<ReadingProgress>): Option<real> {
    var vp := Filter(progress, HasMinutes);
    if |vp| > 0 then
      var totalMinutes := SumOf(vp, MinutesOf);
      if totalMinutes > 0 then Some((DeltaSum(vp) as real / totalMinutes as real) * 60.0) else None
    else None
  }

  /** The days left at two hours of reading a day: the remaining pages over the pace, halved and
      converted with `Double.toInt()`. */
  function EstimatedDaysToComplete(book: Book, pagesPerHour: Option<real>): Option<int> {
    if pagesPerHour.Some? && book.totalPages.Some? then
      var remainingPages := book.totalPages.value - book.currentPage;
      Some(ToInt(Scale(Quotient(remainingPages as real, pagesPerHour.value), 0.5)))
    else None
  }

  /** The pace `calculateReadingPace` reports. */
  function ReadingPaceOf(book: Book, progress: seq<ReadingProgress>): ReadingPace {
    if |progress| == 0 then ReadingPace(None, None, ReadingConsistency.Poor)
    else
      var pagesPerHour := PagesPerHour(progress);
      ReadingPace(pagesPerHour, EstimatedDaysToComplete(book, pagesPerHour), ReadingConsistencyOf(progress))
  }

  /** `calculateReadingPace`. */
  method CalculateReadingPace(book: Book, progress: seq<ReadingProgress>) returns (pace: ReadingPace)
    ensures pace == ReadingPaceOf(book, progress)
  {
    if |progress| == 0 {
      return ReadingPace(None, None, ReadingConsistency.Poor);
    }
    var pagesPerHour := PagesPerHour(progress);
    var estimatedDaysToComplete := EstimatedDaysToComplete(book, pagesPerHour);
    var readingConsistency := CalculateReadingConsistency(progress);
    pace := ReadingPace(pagesPerHour, estimatedDaysToComplete, readingConsistency);
  }

  /** A pace exists exactly when there are events and their minutes add up to a positive total;
      over distinct timed records it is the last record's page per minute, times 60. */
  lemma PagesPerHourOfDistinctRecords(book: Book, progress: seq<ReadingProgress>)
    ensures var vp := Filter(progress, HasMinutes);
      ReadingPaceOf(book, progress).pagesPerHour.Some? <==> progress != [] && SumOf(vp, MinutesOf) > 0
    ensures var vp := Filter(progress, HasMinutes);
      progress != [] && vp != [] && NoDuplicates(vp) && SumOf(vp, MinutesOf) > 0 ==>
        ReadingPaceOf(book, progress).pagesPerHour
          == Some((vp[|vp| - 1].currentPage as real / SumOf(vp, MinutesOf) as real) * 60.0)
  {
    var vp := Filter(progress, HasMinutes);
    if vp != [] && NoDuplicates(vp) {
      DeltaSumTelescopes(vp);
    }
  }

  /** A pace of zero pages an hour with pages still to read divides by zero: the estimate
      saturates at `Int.MAX_VALUE`; with nothing left to read it is NaN and becomes 0. */
  lemma ZeroPaceEstimate(book: Book)
    requires book.totalPages.Some?
    ensures book.currentPage < book.totalPages.value ==> EstimatedDaysToComplete(book, Some(0.0)) == Some(IntMax)
    ensures book.currentPage == book.totalPages.value ==> EstimatedDaysToComplete(book, Some(0.0)) == Some(0)
  {
  }

  /** With a positive pace and pages left, the estimate is never negative and never exceeds
      the remaining hours halved; below the `Int` range it is their whole part. */
  lemma PositivePaceEstimate(book: Book, pagesPerHour: real)
    requires book.totalPages.Some? && pagesPerHour > 0.0
    requires book.currentPage <= book.totalPages.value
    ensures var days := EstimatedDaysToComplete(book, Some(pagesPerHour));
      var halfHours := (book.totalPages.value - book.currentPage) as real / pagesPerHour * 0.5;
      && days.Some? && 0 <= days.value
      && days.value as real <= halfHours
      && (halfHours < IntMax as real ==> halfHours < days.value as real + 1.0)
  {
    var rem := (book.totalPages.value - book.currentPage) as real;
    var halfHours := rem / pagesPerHour * 0.5;
    assert rem / pagesPerHour >= 0.0;
    assert Scale(Quotient(rem, pagesPerHour), 0.5) == Finite(halfHours);
  }
}
