/** The reading-progress service: recording an event behind its guards, the per-book reading
    statistics, the completion percentage and the reading streak (current and longest runs of
    consecutive reading days). */
module ProgressService {
  import opened Wrappers
  import opened Time
  import opened Text
  import opened Sequences
  import Books
  import opened Progress
  import opened ProgressRepository

  type Book = Books.Book

  datatype ReadingStats = ReadingStats(
    totalPagesRead: int,
    totalMinutesRead: int,
    averageReadingSpeed: Option<real>,
    completionPercentage: Option<real>,
    daysRead: int,
    lastReadDate: Option<Timestamp>)

  datatype ReadingStreak = ReadingStreak(
    currentStreak: int,
    longestStreak: int,
    currentStreakStartDate: Option<Day>,
    longestStreakStartDate: Option<Day>)

  // ---------------------------------------------------------------------------------------
  // Guards

  /** `validateBook`: `lookup` is what the book repository finds under `bookId`. */
  function ValidateBook(lookup: Option<Book>, bookId: int): (r: Result<Book>)
    ensures r.Success? <==> lookup.Some?
    ensures r.Success? ==> r.value == lookup.value
    ensures r.Failure? ==> r.error == IllegalArgument("Book not found with id: " + IntToString(bookId))
  {
    if lookup.None? then Failure(IllegalArgument("Book not found with id: " + IntToString(bookId)))
    else Success(lookup.value)
  }

  /** `validatePageNumber`: a page beyond a known page count is refused; the last page is not. */
  function ValidatePageNumber(book: Book, progress: ReadingProgress): (r: Result<()>)
    ensures r.Failure? <==> book.totalPages.Some? && progress.currentPage > book.totalPages.value
    ensures r.Failure? ==> r.error.IllegalArgument?
  {
    if book.totalPages.Some? && progress.currentPage > book.totalPages.value then
      Failure(IllegalArgument("Page number cannot be greater than total pages"))
    else Success(())
  }

  /** `validateDateRange`: the start may equal the end but not follow it. */
  function ValidateDateRange(startDate: Timestamp, endDate: Timestamp): (r: Result<()>)
    ensures r.Success? <==> startDate <= endDate
    ensures r.Failure? ==> r.error.IllegalArgument?
  {
    if startDate > endDate then Failure(IllegalArgument("Start date must be before or equal to end date"))
    else Success(())
  }

  /** The events recorded so far; the repository numbers them 1, 2, ... in insertion order. */
  class ProgressLog {
    var records: seq<ReadingProgress>

    ghost predicate Valid()
      reads this
    {
      forall i :: 0 <= i < |records| ==> records[i].id == Some(i + 1)
    }

    constructor ()
      ensures Valid() && records == []
    {
      records := [];
    }

    /** `recordProgress`: refused for an unknown book or a page beyond its page count; otherwise
        stored under the next id and returned with it. `lookup` is the book found under
        `progress.bookId`. */
    method RecordProgress(lookup: Option<Book>, progress: ReadingProgress) returns (r: Result<ReadingProgress>)
      requires Valid()
      modifies this
      ensures Valid()
      ensures r.Success? <==>
        lookup.Some? && !(lookup.value.totalPages.Some? && progress.currentPage > lookup.value.totalPages.value)
      ensures r.Failure? ==> r.error.IllegalArgument? && records == old(records)
      ensures r.Success? ==>
        && r.value == progress.(id := Some(|old(records)| + 1))
        && records == old(records) + [r.value]
    {
      var book :- ValidateBook(lookup, progress.bookId);
      var _ :- ValidatePageNumber(book, progress);
      var saved := progress.(id := Some(|records| + 1));
      records := records + [saved];
      return Success(saved);
    }
  }

  // ---------------------------------------------------------------------------------------
  // Statistics

  /** `calculateCompletionPercentage`: the page of the latest event (the first one when several
      share the greatest timestamp) over the page count; absent without a nonzero page count or
      without events. */
  function CompletionPercentage(totalPages: Option<int>, progress: seq<ReadingProgress>): (r: Option<real>)
    ensures r.None? <==> totalPages.None? || totalPages.value == 0 || progress == []
  {
    if totalPages.None? || totalPages.value == 0 || progress == [] then None
    else
      var currentPage := progress[LatestIndex(progress)].currentPage;
      Some((currentPage as real / totalPages.value as real) * 100.0)
  }

  /** Over events fetched newest first the latest event is the first one, and a page within the
      book gives a percentage from 0 to 100. */
  lemma CompletionOfNewestFirst(totalPages: int, progress: seq<ReadingProgress>)
    requires NewestFirst(progress) && progress != [] && totalPages > 0
    ensures LatestIndex(progress) == 0
    ensures 0 <= progress[0].currentPage <= totalPages ==>
      0.0 <= CompletionPercentage(Some(totalPages), progress).value <= 100.0
  {
    var t := totalPages as real;
    var p := progress[0].currentPage as real;
    if 0 <= progress[0].currentPage <= totalPages {
      assert p / t <= 1.0;
    }
  }

  /** `getReadingStats`: `lookup` is the book found under `bookId` and `progress` its events as
      the repository returns them (newest first). The minutes and the speed are the repository's
      own aggregates over the same events. */
  function GetReadingStats(lookup: Option<Book>, bookId: int, progress: seq<ReadingProgress>): (r: Result<ReadingStats>)
    ensures r.Success? <==> lookup.Some?
    ensures r.Success? ==>
      && r.value.totalPagesRead == (if progress == [] then 0 else progress[|progress| - 1].currentPage)
      && r.value.totalMinutesRead == SumOf(progress, MinutesOf)
      && r.value.averageReadingSpeed == AverageSpeedOf(progress)
      && r.value.completionPercentage == CompletionPercentage(lookup.value.totalPages, progress)
      && r.value.daysRead == |Distinct(Dates(progress))| <= |progress|
      && (r.value.lastReadDate.None? <==> progress == [])
      && (r.value.lastReadDate.Some? ==>
            (exists i :: 0 <= i < |progress| && progress[i].timestamp == r.value.lastReadDate.value)
            && forall i :: 0 <= i < |progress| ==> progress[i].timestamp <= r.value.lastReadDate.value)
  {
    var book :- ValidateBook(lookup, bookId);
    Success(ReadingStats(
      if progress == [] then 0 else progress[|progress| - 1].currentPage,
      TotalMinutesRead(progress),
      AverageSpeedOf(progress),
      CompletionPercentage(book.totalPages, progress),
      |Distinct(Dates(progress))|,
      if progress == [] then None else Some(progress[LatestIndex(progress)].timestamp)))
  }

  /** Because the events arrive newest first, the "pages read" are the page of the oldest event
      and the last read date is the timestamp of the first event. */
  lemma StatsOfNewestFirst(book: Book, bookId: int, progress: seq<ReadingProgress>)
    requires NewestFirst(progress) && progress != []
    ensures var s := GetReadingStats(Some(book), bookId, progress).value;
      && s.totalPagesRead == progress[|progress| - 1].currentPage
      && s.lastReadDate == Some(progress[0].timestamp)
  {
  }

  // ---------------------------------------------------------------------------------------
  // Streaks

  /** The length of the run of consecutive days that ends at index `k`. */
  function RunAt(d: seq<Day>, k: int): (n: int)
    requires 0 <= k < |d|
    ensures 1 <= n <= k + 1
  {
    if k > 0 && d[k] - 1 == d[k - 1] then RunAt(d, k - 1) + 1 else 1
  }

  /** The run ending at `k` is a maximal run of consecutive days: each of its days follows the
      one before, and the day before its start does not. */
  lemma {:induction false} RunAtIsMaximal(d: seq<Day>, k: int)
    requires 0 <= k < |d|
    ensures var s := k - RunAt(d, k) + 1;
      && (forall j :: s < j <= k ==> d[j] - 1 == d[j - 1])
      && (s > 0 ==> d[s] - 1 != d[s - 1])
  {
    if k > 0 && d[k] - 1 == d[k - 1] {
      RunAtIsMaximal(d, k - 1);
    }
  }

  /** The index among the first `i` whose run is longest, the earliest on a tie. */
  function BestIndex(d: seq<Day>, i: int): (b: int)
    requires 1 <= i <= |d|
    ensures 0 <= b < i
    ensures forall k :: 0 <= k < i ==> RunAt(d, k) <= RunAt(d, b)
    ensures forall k :: 0 <= k < b ==> RunAt(d, k) < RunAt(d, b)
  {
    if i == 1 then 0
    else
      var b := BestIndex(d, i - 1);
      if RunAt(d, i - 1) > RunAt(d, b) then i - 1 else b
  }

  /** The longest streak over the first `i` dates: the longest run when it has two days or more,
      0 otherwise. */
  function LongestUpTo(d: seq<Day>, i: int): int
    requires 1 <= i <= |d|
  {
    var m := RunAt(d, BestIndex(d, i));
    if m >= 2 then m else 0
  }

  /** The start of that longest streak, absent when it is 0. */
  function LongestStartUpTo(d: seq<Day>, i: int): Option<Day>
    requires 1 <= i <= |d|
  {
    var b := BestIndex(d, i);
    var m := RunAt(d, b);
    if m >= 2 then Some(d[b - m + 1]) else None
  }

  /** One more date replaces the longest streak exactly when it extends a run beyond it. */
  lemma LongestStep(d: seq<Day>, i: int)
    requires 1 <= i < |d|
    ensures d[i] - 1 == d[i - 1] && RunAt(d, i) > LongestUpTo(d, i) ==>
      LongestUpTo(d, i + 1) == RunAt(d, i) && LongestStartUpTo(d, i + 1) == Some(d[i - RunAt(d, i) + 1])
    ensures !(d[i] - 1 == d[i - 1] && RunAt(d, i) > LongestUpTo(d, i)) ==>
      LongestUpTo(d, i + 1) == LongestUpTo(d, i) && LongestStartUpTo(d, i + 1) == LongestStartUpTo(d, i)
  {
  }

  /** The streak `calculateReadingStreak` reports for `d`: the run ending at the last date and
      its start; the longest run and its earliest start when some run has two days or more, and
      0 with no start otherwise. */
  function ReadingStreakOf(d: seq<Day>): ReadingStreak {
    if |d| == 0 then ReadingStreak(0, 0, None, None)
    else
      var current := RunAt(d, |d| - 1);
      var best := BestIndex(d, |d|);
      var longest := RunAt(d, best);
      if longest >= 2 then ReadingStreak(current, longest, Some(d[|d| - current]), Some(d[best - longest + 1]))
      else ReadingStreak(current, 0, Some(d[|d| - current]), None)
  }

  /** `calculateReadingStreak`: one pass over the dates, counting the run that ends at each date
      and remembering the first run that beats the longest so far. */
  method CalculateReadingStreak(readDates: seq<Day>) returns (streak: ReadingStreak)
    ensures streak == ReadingStreakOf(readDates)
  {
    if |readDates| == 0 {
      return ReadingStreak(0, 0, None, None);
    }
    var currentStreak := 0;
    var longestStreak := 0;
    var streakStartDate: Option<Day> := None;
    var longestStreakStartDate: Option<Day> := None;
    var previousDate := readDates[0];
    var i := 0;
    while i < |readDates|
      invariant 0 <= i <= |readDates|
      invariant previousDate == readDates[if i == 0 then 0 else i - 1]
      invariant i == 0 ==> currentStreak == 0 && longestStreak == 0 && streakStartDate.None? && longestStreakStartDate.None?
      invariant i > 0 ==> currentStreak == RunAt(readDates, i - 1) && streakStartDate == Some(readDates[i - currentStreak])
      invariant i > 0 ==> longestStreak == LongestUpTo(readDates, i)
      invariant i > 0 ==> longestStreakStartDate == LongestStartUpTo(readDates, i)
    {
      if i > 0 {
        LongestStep(readDates, i);
      }
      var date := readDates[i];
      if date - 1 == previousDate {
        assert i > 0 && RunAt(readDates, i) == currentStreak + 1;
        currentStreak := currentStreak + 1;
        if streakStartDate.None? {
          streakStartDate := Some(previousDate);
        }
        if currentStreak > longestStreak {
          longestStreak := currentStreak;
          longestStreakStartDate := streakStartDate;
        }
      } else {
        assert RunAt(readDates, i) == 1;
        currentStreak := 1;
        streakStartDate := Some(date);
      }
      previousDate := date;
      i := i + 1;
    }
    streak := ReadingStreak(currentStreak, longestStreak, streakStartDate, longestStreakStartDate);
  }

  /** On dates with at least one entry: the current streak is the maximal run ending at the
      latest date, with its first date as start; the longest streak is 0 with no start exactly
      when no two dates are consecutive, and otherwise is at least 2, no shorter than any run
      (the current one included) and starts at the earliest run of that length. */
  lemma ReadingStreakProperties(d: seq<Day>)
    requires |d| > 0
    ensures var r := ReadingStreakOf(d);
      var n := |d|;
      && 1 <= r.currentStreak <= n
      && r.currentStreak == RunAt(d, n - 1)
      && r.currentStreakStartDate == Some(d[n - r.currentStreak])
      && (forall j :: n - r.currentStreak < j < n ==> d[j] - 1 == d[j - 1])
      && (r.currentStreak < n ==> d[n - r.currentStreak] - 1 != d[n - r.currentStreak - 1])
      && (r.longestStreak == 0 <==> forall k :: 1 <= k < n ==> d[k] - 1 != d[k - 1])
      && (r.longestStreakStartDate.None? <==> r.longestStreak == 0)
      && (r.longestStreak > 0 ==>
            && r.longestStreak >= 2
            && (forall k :: 0 <= k < n ==> RunAt(d, k) <= r.longestStreak)
            && r.currentStreak <= r.longestStreak
            && var b := BestIndex(d, n);
            && RunAt(d, b) == r.longestStreak
            && (forall k :: 0 <= k < b ==> RunAt(d, k) < r.longestStreak)
            && r.longestStreakStartDate == Some(d[b - r.longestStreak + 1]))
  {
    var n := |d|;
    RunAtIsMaximal(d, n - 1);
    var b := BestIndex(d, n);
    if RunAt(d, b) < 2 {
      forall k | 1 <= k < n
        ensures d[k] - 1 != d[k - 1]
      {
        var run := RunAt(d, k);
      }
    } else {
      var k := b;
      assert RunAt(d, k) >= 2 && k > 0 && d[k] - 1 == d[k - 1];
    }
  }

  /** A single reading date gives a current streak of 1 but a longest streak of 0 with no start,
      because the longest streak is only updated on consecutive dates. */
  lemma SingleDateStreak(day: Day)
    ensures ReadingStreakOf([day]) == ReadingStreak(1, 0, Some(day), None)
  {
  }

  /** `getReadingStreak`: `lookup` is the book found under `bookId` and `rows` its events as the
      daily query reads them (oldest first); the streak is taken over the distinct sorted dates
      of the daily selection. */
  method GetReadingStreak(lookup: Option<Book>, bookId: int, rows: seq<ReadingProgress>) returns (r: Result<ReadingStreak>)
    ensures r.Success? <==> lookup.Some?
    ensures r.Failure? ==> r.error.IllegalArgument?
    ensures r.Success? ==> r.value == ReadingStreakOf(ReadingDays(DailyProgress(rows)))
  {
    var _ :- ValidateBook(lookup, bookId);
    var progress := DailyProgress(rows);
    var readDates := ReadingDays(progress);
    var streak := CalculateReadingStreak(readDates);
    return Success(streak);
  }

  /** Keeping one event per day does not change the reading days, so the streak is that of all
      the book's events. */
  lemma DailySelectionKeepsReadingDays(rows: seq<ReadingProgress>)
    ensures ReadingDays(DailyProgress(rows)) == ReadingDays(rows)
  {
    DailyProgressShape(rows);
    DistinctOfNoDuplicates(Distinct(Dates(rows)));
  }
}
