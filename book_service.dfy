/** The book service: the add/update guards over the book store, the library reading
    statistics and the year range of the books-read query. */
module BookService {
  import opened Wrappers
  import opened Time
  import opened Sequences
  import opened Enums
  import opened Books
  import DomainService

  /** The library statistics: how many books, how many read, their average rating and the
      number of read books per year of reading. */
  datatype LibraryStats = LibraryStats(
    totalBooks: int,
    readBooks: int,
    averageRating: Option<real>,
    booksByYear: map<int, int>)

  /** The stored books, by id; the repository hands out ids 1, 2, ... */
  class BookStore {
    var books: map<int, Book>
    var nextId: int

    ghost predicate Valid()
      reads this
    {
      && nextId >= 1
      && forall id :: id in books ==> 1 <= id < nextId && books[id].id == Some(id) && books[id].IsValid()
    }

    constructor ()
      ensures Valid() && books == map[]
    {
      books := map[];
      nextId := 1;
    }

    /** `findById`. */
    function FindById(id: int): (r: Option<Book>)
      reads this
      ensures r.Some? <==> id in books
      ensures r.Some? ==> r.value == books[id]
    {
      if id in books then Some(books[id]) else None
    }

    /** `addBook`: an invalid book is refused; a valid one is stored under a new id and
        returned with it. */
    method AddBook(book: Book) returns (r: Result<Book>)
      requires Valid()
      modifies this
      ensures Valid()
      ensures r.Success? <==> book.IsValid()
      ensures r.Failure? ==> r.error == IllegalArgument("Invalid book data") && books == old(books)
      ensures r.Success? ==>
        && old(nextId) !in old(books)
        && r.value == book.(id := Some(old(nextId)))
        && books == old(books)[old(nextId) := r.value]
    {
      if !book.IsValid() {
        return Failure(IllegalArgument("Invalid book data"));
      }
      var created := book.(id := Some(nextId));
      books := books[nextId := created];
      nextId := nextId + 1;
      return Success(created);
    }

    /** `updateBook`: a book without an id is refused first, then an invalid one; otherwise the
        stored book with that id, if any, is replaced, and the book is returned as given. */
    method UpdateBook(book: Book) returns (r: Result<Book>)
      requires Valid()
      modifies this
      ensures Valid()
      ensures r.Success? <==> book.id.Some? && book.IsValid()
      ensures book.id.None? ==> r == Failure(IllegalArgument("Book ID cannot be null for update"))
      ensures book.id.Some? && !book.IsValid() ==> r == Failure(IllegalArgument("Invalid book data"))
      ensures r.Success? ==> r.value == book
      ensures r.Success? && book.id.value in old(books) ==> books == old(books)[book.id.value := book]
      ensures r.Success? && book.id.value in old(books) ==> FindById(book.id.value) == Some(book)
      ensures !(r.Success? && book.id.value in old(books)) ==> books == old(books)
      ensures nextId == old(nextId)
    {
      if book.id.None? {
        return Failure(IllegalArgument("Book ID cannot be null for update"));
      }
      if !book.IsValid() {
        return Failure(IllegalArgument("Invalid book data"));
      }
      if book.id.value in books {
        books := books[book.id.value := book];
      }
      return Success(book);
    }

    /** `deleteBook`: whether a book was removed. */
    method DeleteBook(id: int) returns (deleted: bool)
      requires Valid()
      modifies this
      ensures Valid()
      ensures deleted <==> id in old(books)
      ensures books == old(books) - {id}
      ensures nextId == old(nextId)
    {
      deleted := id in books;
      books := books - {id};
    }
  }

  /** The row `BookRepositoryImpl.update` leaves behind: it writes every column except
      `dateAcquired`, `startedReading`, `dateRead` and `rating`, which keep their stored
      values. The store above writes the whole book instead. */
  function UpdatedRow(stored: Book, book: Book): Book {
    book.(id := stored.id, dateAcquired := stored.dateAcquired, startedReading := stored.startedReading,
          dateRead := stored.dateRead, rating := stored.rating)
  }

  /** Completing a book and writing it back through the repository's update as written loses
      the rating and the read date: the stored row is completed but unrated and has no year of
      reading, so neither the library statistics nor the books-read query ever count it. */
  lemma UpdateLosesRatingAndReadDate(stored: Book, rating: int, now: Timestamp)
    requires stored.status == InProgress && stored.rating.None? && stored.dateRead.None?
    requires 1 <= rating <= 5
    ensures var done := DomainService.CompleteReading(stored, Some(rating), now);
      && done.Success? && done.value.rating == Some(rating) && done.value.ReadingYear().Some?
      && var row := UpdatedRow(stored, done.value);
         row.status == Completed && row.rating.None? && row.ReadingYear().None? && row != done.value
  {
  }

  /** Adding a valid book and looking it up under the returned id gives it back. */
  method AddThenFind(store: BookStore, book: Book) returns (found: Option<Book>)
    requires store.Valid() && book.IsValid()
    modifies store
    ensures store.Valid()
    ensures found.Some? && found.value.id.Some?
    ensures found.value == book.(id := found.value.id)
  {
    var r := store.AddBook(book);
    found := store.FindById(r.value.id.value);
  }

  // ---------------------------------------------------------------------------------------
  // Statistics

  /** `mapNotNull { it.rating }`. */
  function Ratings(books: seq<Book>): (r: seq<int>)
    ensures |r| <= |books|
    ensures forall x :: x in r <==> exists b :: b in books && b.rating == Some(x)
  {
    if books == [] then []
    else
      var rest := Ratings(books[1..]);
      assert forall b :: b in books <==> b == books[0] || b in books[1..];
      if books[0].rating.Some? then [books[0].rating.value] + rest else rest
  }

  /** The years in which some book was finished. */
  function ReadYears(books: seq<Book>): set<int> {
    set b | b in books && b.ReadingYear().Some? :: b.ReadingYear().value
  }

  /** `filter { it.isRead() }`. */
  function ReadBooks(allBooks: seq<Book>): seq<Book> {
    Filter(allBooks, (b: Book) => b.IsRead())
  }

  /** `groupBy { it.readingYear() }` followed by the size of each group, nulls dropped. */
  function BooksByYear(books: seq<Book>): map<int, int> {
    map y | y in ReadYears(books) :: Count(books, (b: Book) => b.ReadingYear() == Some(y))
  }

  /** `getReadingStats` over all the books: every book is counted, and the read books are
      among them. */
  function GetReadingStats(allBooks: seq<Book>): (r: LibraryStats)
    ensures r.totalBooks == |allBooks|
    ensures 0 <= r.readBooks <= r.totalBooks
  {
    var readBooks := ReadBooks(allBooks);
    var ratings := Ratings(readBooks);
    LibraryStats(
      |allBooks|,
      |readBooks|,
      if |ratings| == 0 then None else Some(Sum(ratings) as real / |ratings| as real),
      BooksByYear(readBooks))
  }

  /** The read books are the completed ones, so there are at most as many as books. */
  lemma ReadBooksCounted(allBooks: seq<Book>)
    ensures var s := GetReadingStats(allBooks);
      && s.totalBooks == |allBooks|
      && s.readBooks == Count(allBooks, (b: Book) => b.status == Completed)
      && s.readBooks <= s.totalBooks
  {
    assert ReadBooks(allBooks) == Filter(allBooks, (b: Book) => b.status == Completed) by {
      FilterSamePredicate(allBooks, (b: Book) => b.IsRead(), (b: Book) => b.status == Completed);
    }
  }

  lemma {:induction false} FilterSamePredicate<T(!new)>(s: seq<T>, p: T -> bool, q: T -> bool)
    requires forall x :: p(x) == q(x)
    ensures Filter(s, p) == Filter(s, q)
  {
    if s != [] {
      FilterSamePredicate(s[1..], p, q);
    }
  }

  /** The average rating is absent exactly when no completed book has a rating. */
  lemma AverageRatingPresence(allBooks: seq<Book>)
    ensures GetReadingStats(allBooks).averageRating.None? <==>
      forall b :: b in allBooks && b.status == Completed ==> b.rating.None?
  {
    var ratings := Ratings(ReadBooks(allBooks));
    if |ratings| == 0 {
      forall b | b in allBooks && b.status == Completed
        ensures b.rating.None?
      {
        assert b in ReadBooks(allBooks);
      }
    } else {
      assert ratings[0] in ratings;
    }
  }

  /** The per-year table has a key for each year in which a completed book was finished and
      no other; each entry is the number of completed books finished in that year, between 1
      and all read books. */
  lemma BooksByYearShape(allBooks: seq<Book>)
    ensures var s := GetReadingStats(allBooks);
      && (forall y :: y in s.booksByYear <==>
            exists b :: b in allBooks && b.status == Completed && b.ReadingYear() == Some(y))
      && (forall y :: y in s.booksByYear ==>
            s.booksByYear[y] == Count(allBooks, (b: Book) => b.status == Completed && b.ReadingYear() == Some(y)))
      && (forall y :: y in s.booksByYear ==> 1 <= s.booksByYear[y] <= s.readBooks)
  {
    var readBooks := ReadBooks(allBooks);
    var table := BooksByYear(readBooks);
    forall y | y in table
      ensures table[y] == Count(allBooks, (b: Book) => b.status == Completed && b.ReadingYear() == Some(y))
      ensures 1 <= table[y] <= |readBooks|
    {
      var b :| b in readBooks && b.ReadingYear().Some? && b.ReadingYear().value == y;
      assert b in Filter(readBooks, (b: Book) => b.ReadingYear() == Some(y));
      CountOfFilter(allBooks, (b: Book) => b.IsRead(), (b: Book) => b.ReadingYear() == Some(y),
                    (b: Book) => b.status == Completed && b.ReadingYear() == Some(y));
    }
  }

  lemma {:induction false} SumBounds(xs: seq<int>, lo: int, hi: int)
    requires forall i :: 0 <= i < |xs| ==> lo <= xs[i] <= hi
    ensures lo * |xs| <= Sum(xs) <= hi * |xs|
  {
    if xs != [] {
      SumBounds(xs[..|xs| - 1], lo, hi);
    }
  }

  /** Over valid books the average rating lies between 1 and 5. */
  lemma AverageRatingInRange(allBooks: seq<Book>)
    requires forall b :: b in allBooks ==> b.IsValid()
    ensures var a := GetReadingStats(allBooks).averageRating;
      a.Some? ==> 1.0 <= a.value <= 5.0
  {
    var ratings := Ratings(ReadBooks(allBooks));
    if |ratings| > 0 {
      forall i | 0 <= i < |ratings|
        ensures 1 <= ratings[i] <= 5
      {
        assert ratings[i] in ratings;
      }
      SumBounds(ratings, 1, 5);
      var n := |ratings| as real;
      var s := Sum(ratings) as real;
      assert n <= s <= 5.0 * n;
      DivideBounds(s, n);
    }
  }

  /** A quotient of a sum between `n` and `5n` by `n` lies in 1..5; kept apart so that the
      real division is proved without the statistics in scope. */
  lemma DivideBounds(s: real, n: real)
    requires n > 0.0 && n <= s <= 5.0 * n
    ensures 1.0 <= s / n <= 5.0
  {
  }

  // ---------------------------------------------------------------------------------------
  // Books read in a year

  /** `getBooksReadInYear`: the books whose read date falls from January 1 to December 31 of
      `year`, both included; `LocalDate.of` refuses a year out of its range. */
  function GetBooksReadInYear(year: int, allBooks: seq<Book>): (r: Result<seq<Book>>)
    ensures r.Success? <==> MinYear <= year <= MaxYear
    ensures r.Failure? ==> r.error.DateTime?
  {
    var startDate :- DateOf(year, 1, 1);
    // once January 1 exists, so does December 31
    var endDate := DateOf(year, 12, 31).value;
    Success(Filter(allBooks, (b: Book) => b.dateRead.Some? && startDate <= DayOf(b.dateRead.value) <= endDate))
  }

  /** `findBooksReadBetween` as written: the date-time column `date_read` is compared with
      the two dates, which the database widens to their midnight. Everything it returns was
      read inside the calendar-day window. */
  function BooksReadBetweenAsWritten(startDate: Day, endDate: Day, allBooks: seq<Book>): (r: seq<Book>)
    ensures forall b :: b in r ==> b in allBooks && b.dateRead.Some? && startDate <= DayOf(b.dateRead.value) <= endDate
  {
    Filter(allBooks, (b: Book) => b.dateRead.Some? && startDate * SecondsPerDay <= b.dateRead.value <= endDate * SecondsPerDay)
  }

  /** `getBooksReadInYear` over the query as written. */
  function GetBooksReadInYearAsWritten(year: int, allBooks: seq<Book>): (r: Result<seq<Book>>)
    ensures r.Success? <==> MinYear <= year <= MaxYear
  {
    var startDate :- DateOf(year, 1, 1);
    var endDate := DateOf(year, 12, 31).value;
    Success(BooksReadBetweenAsWritten(startDate, endDate, allBooks))
  }

  /** A book finished at 15:00 on December 31 was read in that year, and the calendar-day
      window returns it, but the query as written does not: its upper bound is December 31
      at midnight. */
  lemma YearEndAfternoonMissed(year: int, b: Book)
    requires MinYear <= year <= MaxYear
    requires b.dateRead == Some((YearStart(year + 1) - 1) * SecondsPerDay + 15 * 3600)
    ensures b.ReadingYear() == Some(year)
    ensures b in GetBooksReadInYear(year, [b]).value
    ensures b !in GetBooksReadInYearAsWritten(year, [b]).value
  {
    LastDayOfYear(year);
    var last := YearStart(year + 1) - 1;
    var t := b.dateRead.value;
    assert DayOf(t) == last;
    BooksReadInYearMeansReadingYear(year, [b]);
    assert b in [b];
  }

  /** The January 1 to December 31 window selects exactly the books finished in that year. */
  lemma BooksReadInYearMeansReadingYear(year: int, allBooks: seq<Book>)
    requires MinYear <= year <= MaxYear
    ensures forall b :: b in GetBooksReadInYear(year, allBooks).value <==> b in allBooks && b.ReadingYear() == Some(year)
  {
    LastDayOfYear(year);
    forall b | b in allBooks && b.dateRead.Some?
      ensures (YearStart(year) <= DayOf(b.dateRead.value) <= YearStart(year + 1) - 1) <==> b.ReadingYear() == Some(year)
    {
      YearOfIff(DayOf(b.dateRead.value), year);
    }
  }
}
