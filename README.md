# Reading-Vault in Dafny

A model of the domain layer of Reading-Vault, a personal library and reading tracker written
in Kotlin. A library holds books. Each book moves through a reading lifecycle (not started,
in progress, completed, on hold) and collects timestamped reading-progress events. It can be
lent to borrowers and can carry notes. The model covers:

- **Books**: the validation rules on a book, including the simplified ISBN-10/13 format check.
  Also the completion percentage, the status predicates, the QR payload, the year of reading
  and the companion constructors (`book.dfy`).
- **Records**: the progress, lending and note records (`records.dfy`). The daily progress of an
  event is measured against the one before it.
- **Domain service**: the lifecycle transitions, lendability, and the analytics over a book's
  progress events: reading statistics, leading-run streak, gap-based consistency class and
  reading pace (`domain_service.dfy`).
- **Progress repository**: the in-memory parts of the progress repository: one record per
  calendar day, the average-reading-speed loop, and total minutes (`progress_repository.dfy`).
- **Progress service**: its guards, the completion percentage, the per-book reading
  statistics, the longest/current streak calculator and the progress log it writes to
  (`progress_service.dfy`).
- **Book service**: the add, update and delete guards over an in-memory book store, the
  library statistics, and the books-read-in-a-year window (`book_service.dfy`).
- **Lending service**: lending and returning over a lending store that keeps "at most one open
  lending per book", plus current lending, history, overdue lendings and lending statistics
  (`lending_service.dfy`).
- **Note service**: creating, updating and deleting notes over a note store, the page and
  date-range guards, and note statistics (`note_service.dfy`).
- **Operation service**: the reading workflow that writes through the book store and the
  progress log, and the combined views of a book (`operation_service.dfy`).

Shared pieces:

- `wrappers.dfy`: `Option`, `Result`, the error kinds and a small `Double` type.
  The error kinds are Kotlin's `IllegalArgumentException`, `IllegalStateException`,
  `NullPointerException` (from `!!`) and `DateTimeException`.
  `Double` adds infinities and NaN to `real` where the source divides by a value that may be zero.
- `sequences.dfy`: `filter`, `count`, `sumOf`, `distinct` and `sorted` over sequences.
- `text.dfy`: characters and integer-to-text.
- `time.dfy`: the calendar.

Time is in integer seconds (`Timestamp`) and calendar days since 1970-01-01 (`Day`).
The wall clock (`LocalDateTime.now()`) is always an explicit `now` parameter. Repository lookups
that the services only read (`findById` of a book, the rows of a query) are parameters. The
stores the services write to are classes.

### Behaviour of the code worth knowing

The model keeps each of these as the Kotlin has it:
- **Longest streak.** The streak loop raises the longest streak only inside the branch for a day
  that follows the previous one (src/main/kotlin/services/ReadingProgressServiceImpl.kt:129-139).
  So a longest streak stays 0 when no two reading days are adjacent, and a single day gives
  current 1 and longest 0 (`ProgressService.SingleDateStreak`).
- **No sorting.** The domain statistics and pace take page deltas between neighbours of the
  minutes-bearing events in the order given, which is newest first, and they do not skip
  negative deltas (src/main/kotlin/domain/service/DomainBookServiceImpl.kt:75-84).
- **Current streak.** The domain current streak is the consecutive run starting at the earliest
  reading day, not at the most recent one
  (src/main/kotlin/domain/service/DomainBookServiceImpl.kt:144-162).
- **Total pages.** `totalPagesRead` in the progress service's statistics is the page of the last
  element of the list, 0 for no events
  (src/main/kotlin/services/ReadingProgressServiceImpl.kt:74). On the newest-first list this is
  the oldest event (`ProgressService.StatsOfNewestFirst`).

## Model

| member | source | states |
|---|---|---|
| Books.AcceptedIsbnLength | src/main/kotlin/domain/model/Book.kt:77-87 | An accepted ISBN has exactly 10 or 13 characters once every '-' and ' ' is removed, and none of those remain |
| Books.Isbn10Shape | src/main/kotlin/domain/model/Book.kt:92-95 | Ten characters pass the ISBN-10 check iff the first nine are digits and the last is a digit or an upper-case 'X' |
| Books.ValidProgressAtMost100 | src/main/kotlin/domain/model/Book.kt:44-48 | The percentage exists iff a page count is known (for a valid book), and then lies in 0..100 when the page is not negative |
| Books.StatusPredicatesExclusive | src/main/kotlin/domain/model/Book.kt:53-59 | isRead iff COMPLETED, isCurrentlyReading iff IN_PROGRESS, never both |
| Books.CreateNewBook | src/main/kotlin/domain/model/Book.kt:106-129 | A new book is NOT_STARTED, GOOD, at page 0, acquired today, unrated and unread, with its QR payload set |
| Books.NewBookValidity | src/main/kotlin/domain/model/Book.kt:34-42 | A new book is valid iff title and author are not blank, the year is positive, the ISBN passes and the page count is positive, each when present |
| Books.QrCodeNamesId | src/main/kotlin/domain/model/Book.kt:61-65 | The QR payload of a book with an id is "book-" followed by a decimal numeral that parses back to the id |
| Books.StartReading | src/main/kotlin/domain/model/Book.kt:131-137 | The companion start makes the book currently read, started and last read now, nothing else changed |
| Books.UpdateReadingProgress | src/main/kotlin/domain/model/Book.kt:139-150 | Accepted iff the page is at most the page count (or Int.MAX_VALUE); the book is then COMPLETED iff the count is known and reached, otherwise IN_PROGRESS |
| Books.CompanionUpdateAcceptsBackwardPage | src/main/kotlin/domain/model/Book.kt:139-150 | The companion update accepts a page below the current one |
| Progress.CalculateDailyProgress | src/main/kotlin/domain/model/ReadingProgress.kt:13-19 | Without a previous event the progress is the page; with one it is the difference, negative exactly when the page went back and zero when unchanged |
| Progress.ChainProgressTelescopes | src/main/kotlin/domain/model/ReadingProgress.kt:13-19 | Daily progress summed along a chain equals the last event's page |
| Progress.ReadingDays | src/main/kotlin/domain/service/DomainBookServiceImpl.kt:86-88 | The distinct reading days, strictly ascending, exactly the days of some event, empty iff there are no events |
| Progress.LatestIndex | src/main/kotlin/services/ReadingProgressServiceImpl.kt:113-117 | `maxBy` on timestamps: the first event whose timestamp no other event exceeds |
| Lendings.OverdueOnlyWhenActive | src/main/kotlin/domain/model/BookLending.kt:15-21 | Overdue implies active, a returned lending is never overdue, it is not overdue at the expected return instant, and active iff not returned |
| DomainService.StartReading | src/main/kotlin/domain/service/DomainBookServiceImpl.kt:18-27 | Succeeds iff the book is NOT_STARTED or ON_HOLD, and then agrees with the companion start |
| DomainService.UpdateReadingProgress | src/main/kotlin/domain/service/DomainBookServiceImpl.kt:29-47 | Succeeds iff IN_PROGRESS, not backwards and not past the page count; COMPLETED with dateRead = now iff the count is reached, otherwise IN_PROGRESS with no dateRead |
| DomainService.CompleteReading | src/main/kotlin/domain/service/DomainBookServiceImpl.kt:49-59 | Succeeds iff IN_PROGRESS with no rating or one in 1..5; the book is then COMPLETED, read now, rated, at its last page when the count is known |
| DomainService.CompletedIsFinal | src/main/kotlin/domain/service/DomainBookServiceImpl.kt:18-59 | A completed book refuses every transition |
| DomainService.ReadThrough | src/main/kotlin/domain/service/DomainBookServiceImpl.kt:18-47 | Starting a new book and moving to its last page completes it, read at that time |
| DomainService.DomainUpdateRefinesCompanion | src/main/kotlin/domain/service/DomainBookServiceImpl.kt:29-47 | Whatever the domain update accepts, the companion update accepts with the same book apart from dateRead |
| DomainService.CanBeLent | src/main/kotlin/domain/service/DomainBookServiceImpl.kt:101-103 | Lendable iff not IN_PROGRESS and not in POOR condition |
| DomainService.LendabilityFollowsReading | src/main/kotlin/domain/service/DomainBookServiceImpl.kt:101-103 | A just-started book is not lendable; a just-completed one is iff its condition is not POOR |
| DomainService.IsOverdue | src/main/kotlin/domain/service/DomainBookServiceImpl.kt:105-108 | The service's overdue test is the lending's own |
| DomainService.DeltaIsDailyProgress | src/main/kotlin/domain/service/DomainBookServiceImpl.kt:75-84 | The `indexOf`-based page delta of a distinct event is its daily progress against its neighbour |
| DomainService.DeltaSumTelescopes | src/main/kotlin/domain/service/DomainBookServiceImpl.kt:75-84 | For distinct events the summed page deltas equal the last event's page |
| DomainService.AverageMinutesPerPage | src/main/kotlin/domain/service/DomainBookServiceImpl.kt:75-84 | An average exists only when the summed deltas are positive, and is not negative when no minutes are |
| DomainService.EstimatedTimeToComplete | src/main/kotlin/domain/service/DomainBookServiceImpl.kt:80-84 | Present iff the average is; not negative when pages remain; zero at the last page |
| DomainService.ReadingStatsBounds | src/main/kotlin/domain/service/DomainBookServiceImpl.kt:61-99 | Without a page count all zero/null; otherwise daysReading is the number of distinct days, 0 ≤ streak ≤ days ≤ events, streak 0 iff no events, estimate iff average |
| DomainService.MinutesNonNegative | src/main/kotlin/domain/service/DomainBookServiceImpl.kt:75-84 | Non-negative minutes sum to a non-negative total |
| DomainService.PercentageAgreesWithBook | src/main/kotlin/domain/service/DomainBookServiceImpl.kt:73 | The statistics' percentage is the book's own progress percentage |
| DomainService.MinutesPerPageOfDistinctRecords | src/main/kotlin/domain/service/DomainBookServiceImpl.kt:75-84 | For distinct minutes-bearing events the average is total minutes over the last such event's page |
| DomainService.LeadingRunUnique | src/main/kotlin/domain/service/DomainBookServiceImpl.kt:144-162 | The leading consecutive run of a day list has one length |
| DomainService.LeadingRunIsConsecutive | src/main/kotlin/domain/service/DomainBookServiceImpl.kt:144-162 | The days of the leading run are the earliest day plus 0, 1, 2, … |
| DomainService.CalculateCurrentStreak | src/main/kotlin/domain/service/DomainBookServiceImpl.kt:144-162 | The loop with break returns the length of the run of consecutive days from the earliest reading day |
| DomainService.CalculateReadingStats | src/main/kotlin/domain/service/DomainBookServiceImpl.kt:61-99 | Returns the statistics specified by `ReadingStatsOf`, whose properties the lemmas above state |
| DomainService.GapsTelescope | src/main/kotlin/domain/service/DomainBookServiceImpl.kt:176-179 | The gaps between successive days add up to last day minus first |
| DomainService.Variance | src/main/kotlin/domain/service/DomainBookServiceImpl.kt:192-196 | The population variance is never negative |
| DomainService.CalculateReadingConsistency | src/main/kotlin/domain/service/DomainBookServiceImpl.kt:164-190 | The gap loop yields the first matching band of mean gap and deviation, POOR below two days |
| DomainService.DailyReadingIsExcellent | src/main/kotlin/domain/service/DomainBookServiceImpl.kt:164-190 | Reading on consecutive days only is EXCELLENT |
| DomainService.SparseReadingIsPoor | src/main/kotlin/domain/service/DomainBookServiceImpl.kt:164-190 | A mean gap above four days is POOR whatever the deviation |
| DomainService.CalculateReadingPace | src/main/kotlin/domain/service/DomainBookServiceImpl.kt:110-142 | Returns the pace specified by `ReadingPaceOf`: empty events give (null, null, POOR) |
| DomainService.PagesPerHourOfDistinctRecords | src/main/kotlin/domain/service/DomainBookServiceImpl.kt:114-127 | Pages per hour exists iff there are events with positive total minutes; for distinct events it is the last page over the minutes, times 60 |
| DomainService.ZeroPaceEstimate | src/main/kotlin/domain/service/DomainBookServiceImpl.kt:128-134 | A zero pace gives Int.MAX_VALUE days while pages remain (infinity converted to Int) and 0 at the last page |
| Doubles.ToInt | src/main/kotlin/domain/service/DomainBookServiceImpl.kt:133 | `Double.toInt()`: NaN gives 0, the infinities saturate at Int.MIN_VALUE/Int.MAX_VALUE, and an in-range finite value is truncated toward zero |
| DomainService.PositivePaceEstimate | src/main/kotlin/domain/service/DomainBookServiceImpl.kt:128-134 | A positive pace gives the truncated half of remaining pages over pace, not negative |
| ProgressRepository.DailyProgress | src/main/kotlin/data/respository/ReadingProgressRepositoryImpl.kt:107-110 | One stored event per distinct day, in first-seen day order |
| ProgressRepository.LatestOn | src/main/kotlin/data/respository/ReadingProgressRepositoryImpl.kt:110 | The kept event of a day is an event of that day with the greatest timestamp |
| ProgressRepository.DailyProgressShape | src/main/kotlin/data/respository/ReadingProgressRepositoryImpl.kt:107-110 | At most one event per day, every day kept, each the latest of its day, ascending days for ascending input |
| ProgressRepository.GetAverageReadingSpeed | src/main/kotlin/data/respository/ReadingProgressRepositoryImpl.kt:125-146 | The loop with continue returns total qualifying pages over total qualifying minutes, null below two events or with no minutes |
| ProgressRepository.TotalsGrowTogether | src/main/kotlin/data/respository/ReadingProgressRepositoryImpl.kt:132-143 | Both totals are non-negative and positive together; minutes are zero iff no pair qualifies |
| ProgressRepository.AverageSpeedPositive | src/main/kotlin/data/respository/ReadingProgressRepositoryImpl.kt:139-145 | The speed is null iff fewer than two events or no pair qualifies, and otherwise positive |
| ProgressRepository.ForwardReadingHasNoSpeed | src/main/kotlin/data/respository/ReadingProgressRepositoryImpl.kt:126-145 | Newest-first events of a book read forwards give no speed |
| ProgressRepository.TotalMinutesRead | src/main/kotlin/data/respository/ReadingProgressRepositoryImpl.kt:113-123 | The sum of the recorded minutes, 0 when none has minutes |
| ProgressRepository.SkippingNullsKeepsSum | src/main/kotlin/data/respository/ReadingProgressRepositoryImpl.kt:113-123 | Dropping events without minutes leaves the minute total unchanged |
| ProgressService.ValidateBook | src/main/kotlin/services/ReadingProgressServiceImpl.kt:94-98 | A missing book is refused with "Book not found with id: <id>", otherwise the book is returned; the lending, note and operation services use the same check |
| ProgressService.ValidatePageNumber | src/main/kotlin/services/ReadingProgressServiceImpl.kt:100-105 | Refused iff the page count is known and exceeded |
| ProgressService.ValidateDateRange | src/main/kotlin/services/ReadingProgressServiceImpl.kt:107-111 | Accepted iff start is not after end |
| ProgressService.ProgressLog.RecordProgress | src/main/kotlin/services/ReadingProgressServiceImpl.kt:20-24 | Records the event under the next id iff the book exists and the page is within it; nothing changes otherwise |
| ProgressService.CompletionPercentage | src/main/kotlin/services/ReadingProgressServiceImpl.kt:113-117 | Null iff no page count, a zero count or no events |
| ProgressService.CompletionOfNewestFirst | src/main/kotlin/services/ReadingProgressServiceImpl.kt:113-117 | On a newest-first list the latest event is the head, and an in-range page gives 0..100 |
| ProgressService.GetReadingStats | src/main/kotlin/services/ReadingProgressServiceImpl.kt:66-81 | Refused for a missing book; total pages the last element's page (0 when none), minutes summed, speed from the repository, distinct days, last read date the greatest timestamp, null iff no events |
| ProgressService.StatsOfNewestFirst | src/main/kotlin/services/ReadingProgressServiceImpl.kt:73-80 | On a newest-first list, total pages is the oldest event's page and the last read date is the head's timestamp |
| ProgressService.RunAtIsMaximal | src/main/kotlin/services/ReadingProgressServiceImpl.kt:122-148 | The run ending at a day is consecutive and cannot be extended backwards |
| ProgressService.CalculateReadingStreak | src/main/kotlin/services/ReadingProgressServiceImpl.kt:119-149 | The four-variable loop returns the streak specified by `ReadingStreakOf` |
| ProgressService.ReadingStreakProperties | src/main/kotlin/services/ReadingProgressServiceImpl.kt:119-149 | Current is the trailing run with its start; longest is 0 iff no two days adjacent, else the greatest run, earliest on ties, at least current |
| ProgressService.SingleDateStreak | src/main/kotlin/services/ReadingProgressServiceImpl.kt:129-139 | A single day gives current 1, longest 0 and no longest start |
| ProgressService.GetReadingStreak | src/main/kotlin/services/ReadingProgressServiceImpl.kt:86-92 | Refused for a missing book; otherwise the streak of the days of the daily selection |
| ProgressService.DailySelectionKeepsReadingDays | src/main/kotlin/services/ReadingProgressServiceImpl.kt:86-92 | The daily selection has the same reading days as the raw events |
| BookService.BookStore.FindById | src/main/kotlin/data/respository/BookRepositoryImpl.kt:44-46 | Found iff a book is stored under the id, and then that book |
| BookService.BookStore.AddBook | src/main/kotlin/services/BookServiceImpl.kt:40-43 | Refused with "Invalid book data" iff invalid; otherwise stored under a fresh id and returned with it |
| BookService.BookStore.UpdateBook | src/main/kotlin/services/BookServiceImpl.kt:48-52 | A missing id is refused first, then an invalid book; a stored id then has its book replaced, which reads back as written; an unknown id changes nothing |
| BookService.AddThenFind | src/main/kotlin/services/BookServiceImpl.kt:40-43 | A valid book added and then looked up under its new id reads back as the book with that id |
| BookService.BookStore.DeleteBook | src/main/kotlin/services/BookServiceImpl.kt:57-59 | True iff the id was stored; the book is gone afterwards |
| BookService.UpdateLosesRatingAndReadDate | src/main/kotlin/data/respository/BookRepositoryImpl.kt:77-93 | The repository's update leaves a just-completed book unrated and without a year of reading |
| BookService.GetReadingStats | src/main/kotlin/services/BookServiceImpl.kt:96-108 | Every book is counted and readBooks is at most that total. ReadBooksCounted and BooksByYearShape give the values of readBooks and of each year's count. AverageRatingPresence and AverageRatingInRange give when the average rating is present and its range, not its value |
| BookService.ReadBooksCounted | src/main/kotlin/services/BookServiceImpl.kt:96-102 | readBooks is the number of COMPLETED books, at most totalBooks |
| BookService.AverageRatingPresence | src/main/kotlin/services/BookServiceImpl.kt:103 | The average rating is null iff no completed book has a rating |
| BookService.AverageRatingInRange | src/main/kotlin/services/BookServiceImpl.kt:103 | Over valid books the average rating lies in 1..5 |
| BookService.BooksByYearShape | src/main/kotlin/services/BookServiceImpl.kt:104-107 | One key per year in which a completed book was read, no other key; each entry is the number of completed books read that year, between 1 and readBooks |
| BookService.GetBooksReadInYear | src/main/kotlin/services/BookServiceImpl.kt:78-82 | Fails with a date-time error iff the year is outside the supported range |
| BookService.BooksReadInYearMeansReadingYear | src/main/kotlin/services/BookServiceImpl.kt:78-82 | The calendar-day window from January 1 to December 31 selects exactly the books whose year of reading is the year (see Findings for the query as written) |
| BookService.BooksReadBetweenAsWritten | src/main/kotlin/data/respository/BookRepositoryImpl.kt:117-123 | The date-time column compared with the dates taken at midnight; every book returned was read within the calendar days |
| BookService.GetBooksReadInYearAsWritten | src/main/kotlin/services/BookServiceImpl.kt:78-82 | Succeeds iff the year is in LocalDate's range |
| BookService.YearEndAfternoonMissed | src/main/kotlin/data/respository/BookRepositoryImpl.kt:117-123 | A book finished at 15:00 on December 31 belongs to the year and the calendar-day window returns it, but the query as written does not |
| LendingService.History | src/main/kotlin/data/respository/BookLendingRepositoryImpl.kt:25-29 | Exactly the lendings of the book |
| LendingService.IsBookLent | src/main/kotlin/data/respository/BookLendingRepositoryImpl.kt:105-112 | Lent iff some lending of the book is still open |
| LendingService.CurrentLending | src/main/kotlin/data/respository/BookLendingRepositoryImpl.kt:67-75 | `singleOrNull`: found iff the book has exactly one open lending, and then that lending |
| LendingService.OverdueLendings | src/main/kotlin/data/respository/BookLendingRepositoryImpl.kt:77-84 | Exactly the open lendings whose expected return is before now |
| LendingService.OpenAtMostOne | src/main/kotlin/services/BookLendingServiceImpl.kt:103-107 | Under the one-open-lending invariant a book has at most one open lending |
| LendingService.CurrentLendingWhenLent | src/main/kotlin/data/respository/BookLendingRepositoryImpl.kt:67-75 | Under the invariant the single-or-null current lending is found iff the book is lent |
| LendingService.ValidateLending | src/main/kotlin/services/BookLendingServiceImpl.kt:20-25 | Accepted iff the book exists, is not lent, lends no later than the expected return and not in the future; each refusal with its own error, in that order |
| LendingService.LendingStore.FindById | src/main/kotlin/data/respository/BookLendingRepositoryImpl.kt:31-35 | Found iff a stored lending has the id, and then that lending |
| LendingService.LendingStore.LendBook | src/main/kotlin/services/BookLendingServiceImpl.kt:20-25 | Stores the lending under the next id iff the checks pass; the book is lent afterwards and no book gets two open lendings |
| LendingService.LendingStore.ReturnBook | src/main/kotlin/services/BookLendingServiceImpl.kt:31-39 | Unknown and already-returned lendings are refused; otherwise only the return date is written and the book is no longer lent |
| LendingService.GetCurrentLending | src/main/kotlin/services/BookLendingServiceImpl.kt:44-47 | Refused for a missing book, otherwise the current lending |
| LendingService.GetLendingHistory | src/main/kotlin/services/BookLendingServiceImpl.kt:52-55 | Refused for a missing book, otherwise exactly the book's lendings |
| LendingService.GetIsBookLent | src/main/kotlin/services/BookLendingServiceImpl.kt:76-79 | Refused for a missing book, otherwise true iff one of its lendings is open |
| LendingService.AverageLendingDuration | src/main/kotlin/services/BookLendingServiceImpl.kt:118-130 | Null iff no lending was returned |
| LendingService.AverageLendingDurationNonNegative | src/main/kotlin/services/BookLendingServiceImpl.kt:118-130 | Lendings returned no earlier than lent average a non-negative number of days |
| LendingService.GetLendingStats | src/main/kotlin/services/BookLendingServiceImpl.kt:84-95 | Refused with "Book not found with id: <id>" iff the book is missing. OverdueCountMatchesOverdueQuery gives the value of overdueCount and LendingStatsConsistent gives totalLendings. The properties of the other fields, not their values, are stated by LendingStatsConsistent and OperationService.AverageLendingDurationsAgree |
| LendingService.LendingStatsConsistent | src/main/kotlin/services/BookLendingServiceImpl.kt:84-95 | total is the history size; overdue ≤ total, at most the number of the book's open lendings, and implies currently lent; borrowers ≤ total and ≥ 1 when any; currently lent iff lent; average null iff none returned |
| LendingService.OverdueCountMatchesOverdueQuery | src/main/kotlin/services/BookLendingServiceImpl.kt:92 | The overdue count is the number of the book's lendings among those the overdue query returns |
| LendingService.OverdueAtMostOne | src/main/kotlin/services/BookLendingServiceImpl.kt:92-93 | Under the one-open-lending invariant a book reports at most one overdue lending |
| NoteService.ValidatePageNumber | src/main/kotlin/services/BookNoteServiceImpl.kt:118-125 | Refused iff the note has a page and the book's known page count is exceeded |
| NoteService.ValidatePageRange | src/main/kotlin/services/BookNoteServiceImpl.kt:127-133 | Without a page count anything passes; with one the range must start above 0 and end inside the book |
| NoteService.NoteStore.FindById | src/main/kotlin/data/respository/BookNoteRepositoryImpl.kt:33-39 | Found iff a stored note has the id, and then that note |
| NoteService.NoteStore.GetNoteById | src/main/kotlin/services/BookNoteServiceImpl.kt:49-52 | Refused with "Note not found with id: <id>" iff no note has the id |
| NoteService.NoteStore.CreateNote | src/main/kotlin/services/BookNoteServiceImpl.kt:19-23 | Stored under a new id with both time stamps now iff the book exists and the page fits |
| NoteService.NoteStore.UpdateNote | src/main/kotlin/services/BookNoteServiceImpl.kt:29-34 | Needs the book, an id (else a NullPointerException) and an existing note; writes content, page, chapter and update time only |
| NoteService.NoteStore.DeleteNote | src/main/kotlin/services/BookNoteServiceImpl.kt:58-61 | A missing note is refused; otherwise it is removed and the answer is true |
| NoteService.GetNotesForBook | src/main/kotlin/services/BookNoteServiceImpl.kt:40-43 | Refused for a missing book, otherwise exactly the book's notes |
| NoteService.GetNotesByChapter | src/main/kotlin/services/BookNoteServiceImpl.kt:67-70 | Refused for a missing book, otherwise the book's notes in that chapter |
| NoteService.GetNotesByPageRange | src/main/kotlin/services/BookNoteServiceImpl.kt:76-81 | Refused for a missing book, then a reversed range, then a range the book does not allow; otherwise the notes on pages in range |
| NoteService.PageRangeInsideBook | src/main/kotlin/services/BookNoteServiceImpl.kt:127-133 | With a known page count the answer only holds notes on pages 1..count |
| NoteService.GetNotesBetweenDates | src/main/kotlin/services/BookNoteServiceImpl.kt:86-89 | Refused iff start is after end; otherwise the notes created inside the window, both ends included |
| NoteService.GetNotesStats | src/main/kotlin/services/BookNoteServiceImpl.kt:94-104 | Refused with "Book not found with id: <id>" iff the book is missing. The properties of the fields, not their values, are stated by NotesStatsCountsNest (the counts nest) and NotesAverageLength (presence and sign of the average) |
| NoteService.NotesStatsCountsNest | src/main/kotlin/services/BookNoteServiceImpl.kt:94-104 | With pages ≤ total, with chapters ≤ total, distinct chapters ≤ with chapters and ≥ 1 when any |
| NoteService.NotesAverageLength | src/main/kotlin/services/BookNoteServiceImpl.kt:102 | The average length is null iff the book has no notes, never negative |
| OperationService.TransitionsKeepBookValid | src/main/kotlin/services/BookOperationServiceImpl.kt:21-48 | The transitions keep a valid book valid and its id, except a bookmark past Int.MAX_VALUE with no page count |
| OperationService.StartReading | src/main/kotlin/services/BookOperationServiceImpl.kt:21-25 | Succeeds iff the book is stored and may start; the stored book becomes the started one |
| OperationService.UpdateReadingProgress | src/main/kotlin/services/BookOperationServiceImpl.kt:27-42 | A refused domain update records nothing; an accepted one records the requested page and minutes, and the book is stored iff still valid |
| OperationService.CompleteReading | src/main/kotlin/services/BookOperationServiceImpl.kt:44-48 | Succeeds iff the book is stored and may complete; the stored book becomes the completed one |
| OperationService.AverageLendingDurationsAgree | src/main/kotlin/services/BookOperationServiceImpl.kt:117-129 | The mean-of-days average here equals the lending service's sum-over-count average |
| OperationService.LatestProgress | src/main/kotlin/data/respository/ReadingProgressRepositoryImpl.kt:67-75 | Null iff no events, otherwise an event with the greatest timestamp |
| OperationService.GetBookStatistics | src/main/kotlin/services/BookOperationServiceImpl.kt:50-68 | Refused for a missing book; reading statistics are the domain's over the book's own events among all progress rows; history and notes are the book's; totalTimesLent is the history size; the average agrees with the lending service |
| OperationService.GetBookWithDetails | src/main/kotlin/services/BookOperationServiceImpl.kt:70-88 | Refused for a missing book; the reading statistics and the latest event are taken over the book's own events among all progress rows, the statistics present iff IN_PROGRESS or COMPLETED |
| OperationService.ProgressOf | src/main/kotlin/data/respository/ReadingProgressRepositoryImpl.kt:25-31 | Exactly the progress events of the book |
| OperationService.GetCurrentlyReadingBooks | src/main/kotlin/services/BookOperationServiceImpl.kt:90-104 | One entry per IN_PROGRESS book in order, with pace estimate and consistency copied; a missing id fails |
| OperationService.CanBookBeLent | src/main/kotlin/services/BookOperationServiceImpl.kt:106-110 | Refused for a missing book; true only for a domain-lendable book |
| OperationService.CanBookBeLentWhenNotLent | src/main/kotlin/services/BookOperationServiceImpl.kt:106-110 | Under the one-open-lending invariant: lendable iff domain-lendable and not lent |
| Time.DaysBetween | src/main/kotlin/services/BookLendingServiceImpl.kt:122-127 | Whole days between two instants, truncated toward zero |
| Time.DateOf | src/main/kotlin/services/BookServiceImpl.kt:79-80 | `LocalDate.of` succeeds iff year, month and day are in range; the result lies in its year |
| Time.YearOfIff | src/main/kotlin/domain/model/Book.kt:70-72 | A day belongs to year y iff it lies between y's January 1 and the next one |

## Findings

| source | as written | input that shows it | evidently intended | confidence | as-written member | corrected member |
|---|---|---|---|---|---|---|
| src/main/kotlin/data/respository/BookRepositoryImpl.kt:77-93 | `update` writes every column except `dateAcquired`, `startedReading`, `dateRead` and `rating`. No other repository method writes `dateRead` or `rating`. | Complete an in-progress, unrated book with rating 5: the service returns it rated and read, but the stored row stays unrated with no read date. So the library statistics never count its rating or its year, and the books-read-in-a-year query never returns it. | Updating a book stores all of it | not executed | BookService.UpdateLosesRatingAndReadDate | BookService.BookStore.UpdateBook |
| src/main/kotlin/data/respository/BookRepositoryImpl.kt:117-123 | `findBooksReadBetween` compares the date-time column `date_read` with `LocalDate` bounds. H2 widens a date to its midnight, so the upper bound December 31 means December 31 at 00:00. | A book completed at 15:00 on December 31 is missing from `getBooksReadInYear` for that year (and for every other year). | Every book read on a day from January 1 to December 31 is returned | medium, not executed; rests on H2 widening a DATE parameter to a TIMESTAMP at midnight | BookService.YearEndAfternoonMissed | BookService.BooksReadInYearMeansReadingYear |

## Left out

- Persistence: SQL, transactions and the ORM are not part of this model.
  - Stores are in-memory classes.
  - Query answers are filters over the stored records in store order.
  - The `ORDER BY` clauses (history and notes newest first, chapter and page-range answers by page) are not modelled.
  - The operation service's views select the book's events from all progress rows with `ProgressOf`, which keeps the order of `rows`. The repository returns them newest first (`ORDER BY timestamp DESC`), so `rows` must be newest first for the statistics and pace to match the source. The progress service's statistics take the book's list from the caller; it is newest first where a lemma says so.
- `BookRepositoryImpl.create` also writes no `startedReading`, `dateRead`, `rating` or `lastReadAt`. The store keeps the whole book, as for update (see Findings).
- The thin query wrappers are not modelled separately: `getBookProgress`, `getProgressBetweenDates`, `getAllBooks`, `findBooksByAuthor`, `getBookById` and `getLendingById`. Each is a lookup followed by a filter.
- The failure of `returnBook` when the repository finds no row after its own update cannot happen in the store and is not modelled.
- IEEE-754 doubles: averages, percentages and pace are exact reals.
  - The `Double` type keeps only the infinities and NaN of a division by zero, and `toInt`'s saturation.
  - `sqrt` is avoided by comparing the variance with the squared thresholds.
- DomainService.PositivePaceEstimate: states only bounds (0 ≤ days ≤ remaining/pace/2, and within one of it below Int.MAX_VALUE). Rounding of the double division is not modelled.
- Kotlin `Int` overflow: not modelled. Ids, pages, minutes and sums are unbounded. Only the literal `Int.MAX_VALUE` bounds of the source appear.
- `java.time`:
  - Instants are whole seconds, so sub-second precision is not modelled.
  - Time zones are not modelled.
  - Exception messages of `LocalDate.of` are paraphrased.
- The books-read query compares a date-time column with dates. `GetBooksReadInYearAsWritten` models that comparison at midnight; `GetBooksReadInYear`, which the rest of the model uses, compares calendar days (see Findings).
- Unicode:
  - `isDigit` is ASCII '0'..'9'.
  - `isNotBlank` uses the ASCII and common Unicode spaces listed in `text.dfy`.
  - A note's length counts characters, not UTF-16 units.
- BookService.BooksByYearShape: gives each year's count, but does not state that the counts add up to the completed books that have a read date.
- REST resources, DTO mappers, dependency injection, configuration and authentication are not part of this model.
