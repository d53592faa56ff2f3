/** The operation service: the reading workflow over the stored book and its progress log, and
    the combined views of a book (statistics, details, the books being read, lendability). */
module OperationService {
  import opened Wrappers
  import opened Time
  import opened Text
  import opened Sequences
  import Enums
  import opened Books
  import opened Progress
  import opened Lendings
  import opened Notes
  import DomainService
  import ProgressService
  import BookService
  import LendingService
  import NoteService

  /** Everything known about one book's reading and lending. */
  datatype BookStatistics = BookStatistics(
    readingStats: DomainService.BookReadingStats,
    readingPace: DomainService.ReadingPace,
    lendingHistory: seq<BookLending>,
    notes: seq<BookNote>,
    totalTimesLent: int,
    averageLendingDuration: Option<real>)

  /** A book with its latest progress event, its open lending, its notes and, while it is being
      or has been read, its reading statistics. */
  datatype BookWithDetails = BookWithDetails(
    book: Book,
    currentProgress: Option<ReadingProgress>,
    currentLending: Option<BookLending>,
    notes: seq<BookNote>,
    readingStats: Option<DomainService.BookReadingStats>)

  /** A book being read, with its latest progress event and its pace. */
  datatype BookWithProgress = BookWithProgress(
    book: Book,
    currentProgress: Option<ReadingProgress>,
    estimatedDaysToComplete: Option<int>,
    readingConsistency: DomainService.ReadingConsistency)

  // ---------------------------------------------------------------------------------------
  // The reading workflow

  /** The lifecycle transitions keep a valid book valid, except that moving the bookmark of a
      book without a page count past the largest 32-bit integer breaks the page bound. */
  lemma TransitionsKeepBookValid(book: Book, page: int, minutes: Option<int>, rating: Option<int>, now: Timestamp)
    requires book.IsValid()
    ensures var r := DomainService.StartReading(book, now); r.Success? ==> r.value.IsValid() && r.value.id == book.id
    ensures var r := DomainService.CompleteReading(book, rating, now); r.Success? ==> r.value.IsValid() && r.value.id == book.id
    ensures var r := DomainService.UpdateReadingProgress(book, page, minutes, now);
      r.Success? ==> r.value.id == book.id && (r.value.IsValid() <==> page <= IntMax || book.totalPages.Some?)
  {
    StartKeepsBookValid(book, now);
    CompleteKeepsBookValid(book, rating, now);
    UpdateKeepsBookValid(book, page, minutes, now);
  }

  /** Starting changes none of the fields validity looks at. */
  lemma StartKeepsBookValid(book: Book, now: Timestamp)
    requires book.IsValid()
    ensures var r := DomainService.StartReading(book, now); r.Success? ==> r.value.IsValid() && r.value.id == book.id
  {
    var r := DomainService.StartReading(book, now);
    if r.Success? {
      var b := r.value;
      assert b.title == book.title && b.author == book.author && b.isbn == book.isbn && b.rating == book.rating;
      assert b.yearPublished == book.yearPublished && b.totalPages == book.totalPages && b.currentPage == book.currentPage;
    }
  }

  /** Completing sets a rating in 1..5 and moves the bookmark to the last page at most. */
  lemma CompleteKeepsBookValid(book: Book, rating: Option<int>, now: Timestamp)
    requires book.IsValid()
    ensures var r := DomainService.CompleteReading(book, rating, now); r.Success? ==> r.value.IsValid() && r.value.id == book.id
  {
    var r := DomainService.CompleteReading(book, rating, now);
    if r.Success? {
      var b := r.value;
      assert b.title == book.title && b.author == book.author && b.isbn == book.isbn;
      assert b.yearPublished == book.yearPublished && b.totalPages == book.totalPages;
    }
  }

  /** Moving the bookmark keeps validity unless the page leaves the 32-bit bound of a book
      without a page count. */
  lemma UpdateKeepsBookValid(book: Book, page: int, minutes: Option<int>, now: Timestamp)
    requires book.IsValid()
    ensures var r := DomainService.UpdateReadingProgress(book, page, minutes, now);
      r.Success? ==> r.value.id == book.id && (r.value.IsValid() <==> page <= IntMax || book.totalPages.Some?)
  {
    var r := DomainService.UpdateReadingProgress(book, page, minutes, now);
    if r.Success? {
      var b := r.value;
      assert b.title == book.title && b.author == book.author && b.isbn == book.isbn && b.rating == book.rating;
      assert b.yearPublished == book.yearPublished && b.totalPages == book.totalPages && b.currentPage == page;
    }
  }

  /** `startReading`: the stored book is started and written back. */
  method StartReading(store: BookService.BookStore, bookId: int, now: Timestamp) returns (r: Result<Book>)
    requires store.Valid()
    modifies store
    ensures store.Valid()
    ensures var found := old(store.FindById(bookId));
      && (found.None? ==> r == Failure(IllegalArgument("Book not found with id: " + IntToString(bookId))))
      && (r.Success? <==> found.Some? && DomainService.StartReading(found.value, now).Success?)
      && (r.Failure? ==> store.books == old(store.books))
      && (r.Success? ==>
            && r.value == DomainService.StartReading(found.value, now).value
            && store.books == old(store.books)[bookId := r.value])
  {
    var book :- ProgressService.ValidateBook(store.FindById(bookId), bookId);
    var updated :- DomainService.StartReading(book, now);
    TransitionsKeepBookValid(book, 0, None, None, now);
    r := store.UpdateBook(updated);
  }

  /** `updateReadingProgress`: the domain rule moves the bookmark, the event is recorded, and
      the book is written back. The event is recorded before the book is checked for
      storage, so a bookmark the store refuses still leaves its event in the log. */
  method UpdateReadingProgress(store: BookService.BookStore, log: ProgressService.ProgressLog, bookId: int,
                               currentPage: int, minutesRead: Option<int>, now: Timestamp)
    returns (r: Result<Book>)
    requires store.Valid() && log.Valid()
    modifies store, log
    ensures store.Valid() && log.Valid()
    ensures var found := old(store.FindById(bookId));
      var moved := if found.Some? then DomainService.UpdateReadingProgress(found.value, currentPage, minutesRead, now)
                   else Failure(NullPointer);
      && (found.None? ==> r == Failure(IllegalArgument("Book not found with id: " + IntToString(bookId))))
      && (r.Success? <==> found.Some? && moved.Success? && moved.value.IsValid())
      && (found.Some? && moved.Success? ==>
            log.records == old(log.records) + [ReadingProgress(Some(|old(log.records)| + 1), bookId, currentPage, now, minutesRead, None)])
      && (!(found.Some? && moved.Success?) ==> log.records == old(log.records))
      && (r.Failure? ==> store.books == old(store.books))
      && (r.Success? ==> r.value == moved.value && store.books == old(store.books)[bookId := r.value])
  {
    var book :- ProgressService.ValidateBook(store.FindById(bookId), bookId);
    var updated :- DomainService.UpdateReadingProgress(book, currentPage, minutesRead, now);
    TransitionsKeepBookValid(book, currentPage, minutesRead, None, now);
    var saved :- log.RecordProgress(Some(book), ReadingProgress(None, bookId, currentPage, now, minutesRead, None));
    r := store.UpdateBook(updated);
  }

  /** `completeReading`: the stored book is completed and written back. */
  method CompleteReading(store: BookService.BookStore, bookId: int, rating: Option<int>, now: Timestamp) returns (r: Result<Book>)
    requires store.Valid()
    modifies store
    ensures store.Valid()
    ensures var found := old(store.FindById(bookId));
      && (found.None? ==> r == Failure(IllegalArgument("Book not found with id: " + IntToString(bookId))))
      && (r.Success? <==> found.Some? && DomainService.CompleteReading(found.value, rating, now).Success?)
      && (r.Failure? ==> store.books == old(store.books))
      && (r.Success? ==>
            && r.value == DomainService.CompleteReading(found.value, rating, now).value
            && store.books == old(store.books)[bookId := r.value])
  {
    var book :- ProgressService.ValidateBook(store.FindById(bookId), bookId);
    var updated :- DomainService.CompleteReading(book, rating, now);
    TransitionsKeepBookValid(book, 0, None, rating, now);
    r := store.UpdateBook(updated);
  }

  // ---------------------------------------------------------------------------------------
  // Views

  /** `calculateAverageLendingDuration`: the average of the whole-day lengths of the returned
      lendings, absent when none was returned. */
  function AverageLendingDuration(lendings: seq<BookLending>): Option<real> {
    var completed := Filter(lendings, (l: BookLending) => l.actualReturnDate.Some?);
    if |completed| == 0 then None
    else
      var durations := seq(|completed|, i requires 0 <= i < |completed| => LendingService.LendingDays(completed[i]));
      Some(Sum(durations) as real / |durations| as real)
  }

  lemma {:induction false} SumOfDurations(s: seq<BookLending>)
    ensures Sum(seq(|s|, i requires 0 <= i < |s| => LendingService.LendingDays(s[i]))) == SumOf(s, LendingService.LendingDays)
  {
    if s != [] {
      var n := |s|;
      var d := seq(n, i requires 0 <= i < n => LendingService.LendingDays(s[i]));
      var d' := seq(n - 1, i requires 0 <= i < n - 1 => LendingService.LendingDays(s[..n - 1][i]));
      assert d[..n - 1] == d';
      SumOfDurations(s[..n - 1]);
      assert s == s[..n - 1] + [s[n - 1]];
      SumOfAppend(s[..n - 1], [s[n - 1]], LendingService.LendingDays);
    }
  }

  /** The operation service and the lending service compute the same average lending length:
      an average of day counts is their sum over their number. */
  lemma AverageLendingDurationsAgree(lendings: seq<BookLending>)
    ensures AverageLendingDuration(lendings) == LendingService.AverageLendingDuration(lendings)
  {
    var completed := Filter(lendings, (l: BookLending) => l.actualReturnDate.Some?);
    SumOfDurations(completed);
  }

  /** `getLatestProgress`: the event with the latest timestamp. */
  function LatestProgress(progress: seq<ReadingProgress>): (r: Option<ReadingProgress>)
    ensures r.None? <==> |progress| == 0
    ensures r.Some? ==> r.value in progress && forall p :: p in progress ==> p.timestamp <= r.value.timestamp
  {
    if |progress| == 0 then None else Some(progress[LatestIndex(progress)])
  }

  /** `getBookStatistics`: a missing book is refused; otherwise the domain statistics and pace of
      the book's own progress events among `rows`, its lendings and notes, how often it was lent
      and for how long on average. */
  method GetBookStatistics(lookup: Option<Book>, bookId: int, rows: seq<ReadingProgress>,
                           allLendings: seq<BookLending>, allNotes: seq<BookNote>)
    returns (r: Result<BookStatistics>)
    ensures r.Success? <==> lookup.Some?
    ensures r.Failure? ==> r.error == IllegalArgument("Book not found with id: " + IntToString(bookId))
    ensures r.Success? ==>
      && r.value.readingStats == DomainService.ReadingStatsOf(lookup.value, ProgressOf(rows, bookId))
      && r.value.readingPace == DomainService.ReadingPaceOf(lookup.value, ProgressOf(rows, bookId))
      && r.value.lendingHistory == LendingService.History(allLendings, bookId)
      && (forall n :: n in r.value.notes <==> n in allNotes && n.bookId == bookId)
      && r.value.totalTimesLent == |r.value.lendingHistory|
      && r.value.averageLendingDuration == LendingService.AverageLendingDuration(r.value.lendingHistory)
  {
    var book :- ProgressService.ValidateBook(lookup, bookId);
    var progress := ProgressOf(rows, bookId);
    // the book exists, so the lending and note services' own lookups pass
    var lendings := LendingService.History(allLendings, bookId);
    var readingStats := DomainService.CalculateReadingStats(book, progress);
    var readingPace := DomainService.CalculateReadingPace(book, progress);
    var notes := NoteService.GetNotesForBook(lookup, bookId, allNotes).value;
    AverageLendingDurationsAgree(lendings);
    r := Success(BookStatistics(readingStats, readingPace, lendings, notes, |lendings|, AverageLendingDuration(lendings)));
  }

  /** `getBookWithDetails`: a missing book is refused; the latest event and the reading
      statistics come from the book's own events among `rows`, the statistics only for a book
      being read or already read. */
  method GetBookWithDetails(lookup: Option<Book>, bookId: int, rows: seq<ReadingProgress>,
                            allLendings: seq<BookLending>, allNotes: seq<BookNote>)
    returns (r: Result<BookWithDetails>)
    ensures r.Success? <==> lookup.Some?
    ensures r.Failure? ==> r.error == IllegalArgument("Book not found with id: " + IntToString(bookId))
    ensures r.Success? ==>
      && r.value.book == lookup.value
      && r.value.currentProgress == LatestProgress(ProgressOf(rows, bookId))
      && r.value.currentLending == LendingService.CurrentLending(allLendings, bookId)
      && (forall n :: n in r.value.notes <==> n in allNotes && n.bookId == bookId)
      && (r.value.readingStats.Some? <==> lookup.value.status == Enums.InProgress || lookup.value.status == Enums.Completed)
      && (r.value.readingStats.Some? ==> r.value.readingStats.value == DomainService.ReadingStatsOf(lookup.value, ProgressOf(rows, bookId)))
  {
    var book :- ProgressService.ValidateBook(lookup, bookId);
    var progress := ProgressOf(rows, bookId);
    // the book exists, so the lending and note services' own lookups pass
    var currentLending := LendingService.CurrentLending(allLendings, bookId);
    var notes := NoteService.GetNotesForBook(lookup, bookId, allNotes).value;
    var readingStats: Option<DomainService.BookReadingStats> := None;
    if book.IsCurrentlyReading() || book.IsRead() {
      var stats := DomainService.CalculateReadingStats(book, progress);
      readingStats := Some(stats);
    }
    r := Success(BookWithDetails(book, LatestProgress(progress), currentLending, notes, readingStats));
  }

  /** The progress events of one book among all events. */
  function ProgressOf(rows: seq<ReadingProgress>, bookId: int): (r: seq<ReadingProgress>)
    ensures forall p :: p in r <==> p in rows && p.bookId == bookId
  {
    Filter(rows, (p: ReadingProgress) => p.bookId == bookId)
  }

  /** `getCurrentlyReadingBooks`: one entry per book in progress, in the order of the books,
      with its latest event and its pace; a book in progress without an id fails (`id!!`). */
  method GetCurrentlyReadingBooks(allBooks: seq<Book>, rows: seq<ReadingProgress>) returns (r: Result<seq<BookWithProgress>>)
    ensures var reading := Filter(allBooks, (b: Book) => b.IsCurrentlyReading());
      && (r.Success? <==> forall b :: b in reading ==> b.id.Some?)
      && (r.Failure? ==> r.error == NullPointer)
      && (r.Success? ==>
            && |r.value| == |reading|
            && forall i :: 0 <= i < |reading| ==>
                 var progress := ProgressOf(rows, reading[i].id.value);
                 var pace := DomainService.ReadingPaceOf(reading[i], progress);
                 && r.value[i].book == reading[i]
                 && r.value[i].currentProgress == LatestProgress(progress)
                 && r.value[i].estimatedDaysToComplete == pace.estimatedDaysToComplete
                 && r.value[i].readingConsistency == pace.readingConsistency)
  {
    var reading := Filter(allBooks, (b: Book) => b.IsCurrentlyReading());
    var result: seq<BookWithProgress> := [];
    var i := 0;
    while i < |reading|
      invariant 0 <= i <= |reading|
      invariant forall k :: 0 <= k < i ==> reading[k].id.Some?
      invariant |result| == i
      invariant forall k :: 0 <= k < i ==>
        var progress := ProgressOf(rows, reading[k].id.value);
        var pace := DomainService.ReadingPaceOf(reading[k], progress);
        && result[k].book == reading[k]
        && result[k].currentProgress == LatestProgress(progress)
        && result[k].estimatedDaysToComplete == pace.estimatedDaysToComplete
        && result[k].readingConsistency == pace.readingConsistency
    {
      var book := reading[i];
      if book.id.None? {
        assert book in reading;
        return Failure(NullPointer);
      }
      var progress := ProgressOf(rows, book.id.value);
      var pace := DomainService.CalculateReadingPace(book, progress);
      result := result + [BookWithProgress(book, LatestProgress(progress), pace.estimatedDaysToComplete, pace.readingConsistency)];
      i := i + 1;
    }
    assert forall b :: b in reading ==> b.id.Some? by {
      forall b | b in reading
        ensures b.id.Some?
      {
        var k :| 0 <= k < |reading| && reading[k] == b;
      }
    }
    r := Success(result);
  }

  /** `canBookBeLent`: a missing book is refused; otherwise the domain rule must allow lending
      and no single open lending may be found. */
  function CanBookBeLent(lookup: Option<Book>, bookId: int, allLendings: seq<BookLending>): (r: Result<bool>)
    ensures r.Success? <==> lookup.Some?
    ensures r.Failure? ==> r.error == IllegalArgument("Book not found with id: " + IntToString(bookId))
    ensures r.Success? && r.value ==> DomainService.CanBeLent(lookup.value)
  {
    var book :- ProgressService.ValidateBook(lookup, bookId);
    Success(DomainService.CanBeLent(book) && LendingService.CurrentLending(allLendings, bookId).None?)
  }

  /** While no book has two open lendings, a book can be lent exactly when the domain rule allows
      it and it is not lent out already. */
  lemma CanBookBeLentWhenNotLent(lookup: Option<Book>, bookId: int, allLendings: seq<BookLending>)
    requires lookup.Some? && LendingService.AtMostOneOpen(allLendings)
    ensures CanBookBeLent(lookup, bookId, allLendings).value <==>
      DomainService.CanBeLent(lookup.value) && !LendingService.IsBookLent(allLendings, bookId)
  {
    LendingService.CurrentLendingWhenLent(allLendings, bookId);
  }
}
