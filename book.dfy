/** The two enumerations of the domain. */
module Enums {
  /** The reading lifecycle of a book. */
  datatype BookStatus = NotStarted | InProgress | Completed | OnHold

  /** The physical condition of a copy. */
  datatype BookCondition = New | Excellent | Good | Fair | Poor
}

/** A book of the vault and the business rules on it: validation, the simplified ISBN-10/13
    format check, progress percentage, status predicates and the companion constructors. */
module Books {
  import opened Wrappers
  import opened Text
  import opened Time
  import opened Enums
  import opened Sequences

  datatype Book = Book(
    id: Option<int>,
    userId: int,
    title: string,
    author: string,
    isbn: Option<string>,
    yearPublished: Option<int>,
    totalPages: Option<int>,
    status: BookStatus,
    condition: BookCondition,
    location: Option<string>,
    qrCode: Option<string>,
    dateAcquired: Option<Day>,
    startedReading: Option<Timestamp>,
    dateRead: Option<Timestamp>,
    rating: Option<int>,
    currentPage: int,
    lastReadAt: Option<Timestamp>)
  {
    /** The business rules a stored book satisfies. */
    predicate IsValid() {
      && IsNotBlank(title)
      && IsNotBlank(author)
      && (rating.None? || 1 <= rating.value <= 5)
      && (yearPublished.None? || yearPublished.value > 0)
      && (isbn.None? || IsValidIsbn(isbn.value))
      && (totalPages.None? || totalPages.value > 0)
      && currentPage <= (if totalPages.Some? then totalPages.value else IntMax)
    }

    /** The percentage of pages read; absent without a positive page count. */
    function ReadingProgress(): Option<real> {
      if totalPages.Some? && totalPages.value > 0 then
        Some((currentPage as real / totalPages.value as real) * 100.0)
      else None
    }

    predicate IsRead() {
      status == Completed
    }

    predicate IsCurrentlyReading() {
      status == InProgress
    }

    /** The QR payload: "book-" and the id, or the ISBN when there is no id (Kotlin renders a
        missing value as "null"). */
    function GenerateQrCode(): string {
      "book-" + (if id.Some? then IntToString(id.value) else if isbn.Some? then isbn.value else "null")
    }

    /** The year the book was finished, if it was. */
    function ReadingYear(): Option<int> {
      if dateRead.Some? then Some(YearOf(DayOf(dateRead.value))) else None
    }
  }

  /** The ISBN with every hyphen and space removed. */
  function CleanIsbn(isbn: string): string {
    Remove(Remove(isbn, '-'), ' ')
  }

  /** The simplified ISBN check: only the length and the character set of the cleaned text. */
  predicate IsValidIsbn(isbn: string) {
    var clean := CleanIsbn(isbn);
    if |clean| == 10 then IsValidIsbn10(clean)
    else if |clean| == 13 then IsValidIsbn13(clean)
    else false
  }

  /** Every character is a digit, or an 'X' whose first occurrence is at index 9. */
  predicate IsValidIsbn10(isbn: string) {
    forall i :: 0 <= i < |isbn| ==> IsDigit(isbn[i]) || (isbn[i] == 'X' && FirstIndex(isbn, isbn[i]) == 9)
  }

  predicate IsValidIsbn13(isbn: string) {
    forall i :: 0 <= i < |isbn| ==> IsDigit(isbn[i])
  }

  /** An accepted ISBN has 10 or 13 characters once hyphens and spaces are gone. */
  lemma AcceptedIsbnLength(isbn: string)
    requires IsValidIsbn(isbn)
    ensures |CleanIsbn(isbn)| == 10 || |CleanIsbn(isbn)| == 13
    ensures '-' !in CleanIsbn(isbn) && ' ' !in CleanIsbn(isbn)
  {
  }

  /** Of ten characters, the first nine must be digits and the last a digit or an upper-case 'X':
      the ISBN-10 check digit position, with no check-digit arithmetic. */
  lemma Isbn10Shape(s: string)
    requires |s| == 10
    ensures IsValidIsbn10(s) <==> (forall i :: 0 <= i < 9 ==> IsDigit(s[i])) && (IsDigit(s[9]) || s[9] == 'X')
  {
    if IsValidIsbn10(s) {
      forall i | 0 <= i < 9
        ensures IsDigit(s[i])
      {
        assert IsDigit(s[i]) || FirstIndex(s, s[i]) == 9;
      }
    }
    if (forall i :: 0 <= i < 9 ==> IsDigit(s[i])) && (IsDigit(s[9]) || s[9] == 'X') {
      forall i | 0 <= i < 10
        ensures IsDigit(s[i]) || (s[i] == 'X' && FirstIndex(s, s[i]) == 9)
      {
        if !IsDigit(s[i]) {
          assert i == 9 && s[9] == 'X';
          assert forall j :: 0 <= j < 9 ==> s[j] != 'X';
        }
      }
    }
  }

  /** With a positive page count, progress is the page ratio scaled to a percentage, and a valid
      book never exceeds 100. */
  lemma ValidProgressAtMost100(b: Book)
    requires b.IsValid()
    ensures b.ReadingProgress().Some? <==> b.totalPages.Some?
    ensures b.ReadingProgress().Some? ==> b.ReadingProgress().value <= 100.0
    ensures b.ReadingProgress().Some? && b.currentPage >= 0 ==> 0.0 <= b.ReadingProgress().value
  {
    if b.totalPages.Some? {
      var t := b.totalPages.value as real;
      assert b.currentPage as real <= t;
      assert b.currentPage as real / t <= 1.0;
    }
  }

  /** A book is never both read and being read. */
  lemma StatusPredicatesExclusive(b: Book)
    ensures !(b.IsRead() && b.IsCurrentlyReading())
    ensures b.IsRead() <==> b.status == Completed
    ensures b.IsCurrentlyReading() <==> b.status == InProgress
  {
  }

  /** The companion `createNewBook`: a fresh, not-started book acquired `today`, whose QR code
      is derived from its id or ISBN. */
  function CreateNewBook(
    id: Option<int>, userId: int, title: string, author: string, totalPages: Option<int>,
    isbn: Option<string>, yearPublished: Option<int>, location: Option<string>, today: Day): (b: Book)
    ensures b.status == NotStarted && b.condition == Good && b.currentPage == 0
    ensures b.id == id && b.isbn == isbn && b.totalPages == totalPages && b.dateAcquired == Some(today)
    ensures b.rating.None? && b.dateRead.None? && b.startedReading.None? && b.lastReadAt.None?
    ensures b.qrCode == Some(b.GenerateQrCode())
  {
    var created := Book(id, userId, title, author, isbn, yearPublished, totalPages, NotStarted, Good,
      location, None, Some(today), None, None, None, 0, None);
    created.(qrCode := Some(created.GenerateQrCode()))
  }

  /** A new book is valid exactly when its title, author, year, ISBN and page count are. */
  lemma NewBookValidity(
    id: Option<int>, userId: int, title: string, author: string, totalPages: Option<int>,
    isbn: Option<string>, yearPublished: Option<int>, location: Option<string>, today: Day)
    ensures CreateNewBook(id, userId, title, author, totalPages, isbn, yearPublished, location, today).IsValid()
      <==> (&& IsNotBlank(title) && IsNotBlank(author)
            && (yearPublished.None? || yearPublished.value > 0)
            && (isbn.None? || IsValidIsbn(isbn.value))
            && (totalPages.None? || totalPages.value > 0))
  {
  }

  /** The QR code of a book with an id names that id: reading back the text after "book-" gives it. */
  lemma QrCodeNamesId(b: Book)
    requires b.id.Some?
    ensures var q := b.GenerateQrCode();
      && |q| > 5 && q[..5] == "book-"
      && var n := q[5..];
      && (n[0] == '-' ==> |n| >= 2)
      && (forall i :: (if n[0] == '-' then 1 else 0) <= i < |n| ==> IsDigit(n[i]))
      && ParseInt(n) == b.id.value
  {
    var q := b.GenerateQrCode();
    IntRoundTrip(b.id.value);
    assert q[5..] == IntToString(b.id.value);
  }

  /** The companion `startReading`: the book becomes in progress, started and last read `now`. */
  function StartReading(book: Book, now: Timestamp): (b: Book)
    ensures b.IsCurrentlyReading()
    ensures b.startedReading == Some(now) && b.lastReadAt == Some(now)
    ensures b == book.(status := b.status, startedReading := b.startedReading, lastReadAt := b.lastReadAt)
  {
    book.(status := InProgress, startedReading := Some(now), lastReadAt := Some(now))
  }

  /** The companion `updateReadingProgress`: only an upper bound is checked on the new page. */
  function UpdateReadingProgress(book: Book, currentPage: int, now: Timestamp): (r: Result<Book>)
    ensures r.Success? <==> currentPage <= (if book.totalPages.Some? then book.totalPages.value else IntMax)
    ensures r.Failure? ==> r.error.IllegalArgument?
    ensures r.Success? ==>
      && r.value.currentPage == currentPage
      && r.value.lastReadAt == Some(now)
      && (r.value.status == Completed <==> book.totalPages.Some? && currentPage >= book.totalPages.value)
      && (r.value.status != Completed ==> r.value.status == InProgress)
      && r.value == book.(currentPage := r.value.currentPage, lastReadAt := r.value.lastReadAt, status := r.value.status)
  {
    if currentPage > (if book.totalPages.Some? then book.totalPages.value else IntMax) then
      Failure(IllegalArgument("Current page cannot be greater than total pages"))
    else
      Success(book.(
        currentPage := currentPage,
        lastReadAt := Some(now),
        status := if book.totalPages.Some? && currentPage >= book.totalPages.value then Completed else InProgress))
  }

  /** The companion update accepts a page below the current one: it does not enforce forward movement. */
  lemma CompanionUpdateAcceptsBackwardPage(book: Book, now: Timestamp)
    requires book.currentPage > 0 && book.totalPages.Some? && book.currentPage <= book.totalPages.value
    ensures UpdateReadingProgress(book, book.currentPage - 1, now).Success?
    ensures UpdateReadingProgress(book, book.currentPage - 1, now).value.status == InProgress
  {
  }
}
