/** The lending service and the lending repository queries it relies on: lending a book,
    returning it, the open lending of a book and the lending statistics. Lendings are kept in
    the order they were created; the row at index `i` has id `i + 1`. */
module LendingService {
  import opened Wrappers
  import opened Time
  import opened Text
  import opened Sequences
  import opened Books
  import opened Lendings
  import ProgressService

  /** The lending statistics of one book. */
  datatype BookLendingStats = BookLendingStats(
    totalLendings: int,
    currentlyLent: bool,
    averageLendingDuration: Option<real>,
    overdueCount: int,
    uniqueBorrowers: int)

  // ---------------------------------------------------------------------------------------
  // Repository queries

  /** The lendings of `bookId` that have not been returned. */
  function OpenLendings(s: seq<BookLending>, bookId: int): (r: seq<BookLending>)
    ensures forall l :: l in r <==> l in s && l.bookId == bookId && l.IsActive()
  {
    Filter(s, (l: BookLending) => l.bookId == bookId && l.IsActive())
  }

  /** `isBookLent`: some lending of the book is still open. */
  function IsBookLent(s: seq<BookLending>, bookId: int): (r: bool)
    ensures r <==> exists i :: 0 <= i < |s| && s[i].bookId == bookId && s[i].IsActive()
  {
    var open := OpenLendings(s, bookId);
    if |open| > 0 then
      assert open[0] in open;
      true
    else
      assert forall i :: 0 <= i < |s| && s[i].bookId == bookId && s[i].IsActive() ==> s[i] in open;
      false
  }

  /** `getCurrentLending`: the open lending of the book when there is exactly one
      (`singleOrNull`), otherwise none. */
  function CurrentLending(s: seq<BookLending>, bookId: int): (r: Option<BookLending>)
    ensures r.Some? <==> |OpenLendings(s, bookId)| == 1
    ensures r.Some? ==> r.value in s && r.value.bookId == bookId && r.value.IsActive()
  {
    var open := OpenLendings(s, bookId);
    assert |open| > 0 ==> open[0] in open;
    if |open| == 1 then Some(open[0]) else None
  }

  /** `getLendingHistoryForBook`: every lending of the book. */
  function History(s: seq<BookLending>, bookId: int): (r: seq<BookLending>)
    ensures forall l :: l in r <==> l in s && l.bookId == bookId
  {
    Filter(s, (l: BookLending) => l.bookId == bookId)
  }

  /** `getOverdueLendings`: the open lendings whose expected return date is before `now`. */
  function OverdueLendings(s: seq<BookLending>, now: Timestamp): (r: seq<BookLending>)
    ensures forall l :: l in r <==> l in s && l.IsActive() && l.expectedReturnDate < now
  {
    Filter(s, (l: BookLending) => l.IsOverdue(now))
  }

  /** The invariant `validateBookNotLent` maintains: a book has at most one open lending. */
  ghost predicate AtMostOneOpen(s: seq<BookLending>) {
    forall i, j :: 0 <= i < j < |s| && s[i].bookId == s[j].bookId ==> !(s[i].IsActive() && s[j].IsActive())
  }

  lemma {:induction false} OpenAtMostOne(s: seq<BookLending>, bookId: int)
    requires AtMostOneOpen(s)
    ensures |OpenLendings(s, bookId)| <= 1
  {
    if s != [] {
      assert AtMostOneOpen(s[1..]) by {
        forall i, j | 0 <= i < j < |s[1..]| && s[1..][i].bookId == s[1..][j].bookId
          ensures !(s[1..][i].IsActive() && s[1..][j].IsActive())
        {
          assert s[1..][i] == s[i + 1] && s[1..][j] == s[j + 1];
        }
      }
      OpenAtMostOne(s[1..], bookId);
      if s[0].bookId == bookId && s[0].IsActive() {
        forall j | 0 <= j < |s[1..]|
          ensures !(s[1..][j].bookId == bookId && s[1..][j].IsActive())
        {
          assert s[1..][j] == s[j + 1];
        }
        NoneOpen(s[1..], bookId);
      }
    }
  }

  lemma {:induction false} NoneOpen(s: seq<BookLending>, bookId: int)
    requires forall j :: 0 <= j < |s| ==> !(s[j].bookId == bookId && s[j].IsActive())
    ensures OpenLendings(s, bookId) == []
  {
    if s != [] {
      NoneOpen(s[1..], bookId);
    }
  }

  /** While the invariant holds, the current lending is found exactly when the book is lent. */
  lemma CurrentLendingWhenLent(s: seq<BookLending>, bookId: int)
    requires AtMostOneOpen(s)
    ensures CurrentLending(s, bookId).Some? <==> IsBookLent(s, bookId)
  {
    OpenAtMostOne(s, bookId);
    var open := OpenLendings(s, bookId);
    if IsBookLent(s, bookId) {
      var i :| 0 <= i < |s| && s[i].bookId == bookId && s[i].IsActive();
      assert s[i] in open;
    }
  }

  // ---------------------------------------------------------------------------------------
  // Lending and returning

  /** The checks of `lendBook` in their order: the book exists, it is not lent, the lending date
      is not after the expected return date, and it is not in the future. */
  function ValidateLending(lookup: Option<Book>, lent: bool, lending: BookLending, now: Timestamp): (r: Result<()>)
    ensures r.Success? <==>
      lookup.Some? && !lent && lending.lendingDate <= lending.expectedReturnDate && lending.lendingDate <= now
    ensures lookup.None? ==> r == Failure(IllegalArgument("Book not found with id: " + IntToString(lending.bookId)))
    ensures lookup.Some? && lent ==> r == Failure(IllegalState("Book is already lent"))
    ensures lookup.Some? && !lent && lending.lendingDate > lending.expectedReturnDate ==>
      r == Failure(IllegalArgument("Lending date must be before or equal to expected return date"))
    ensures lookup.Some? && !lent && lending.lendingDate <= lending.expectedReturnDate && lending.lendingDate > now ==>
      r == Failure(IllegalArgument("Lending date cannot be in the future"))
  {
    var _ :- ProgressService.ValidateBook(lookup, lending.bookId);
    if lent then Failure(IllegalState("Book is already lent"))
    else if lending.lendingDate > lending.expectedReturnDate then
      Failure(IllegalArgument("Lending date must be before or equal to expected return date"))
    else if lending.lendingDate > now then
      Failure(IllegalArgument("Lending date cannot be in the future"))
    else Success(())
  }

  class LendingStore {
    var lendings: seq<BookLending>

    ghost predicate Valid()
      reads this
    {
      && (forall i :: 0 <= i < |lendings| ==> lendings[i].id == Some(i + 1))
      && AtMostOneOpen(lendings)
    }

    constructor ()
      ensures Valid() && lendings == []
    {
      lendings := [];
    }

    /** `findById`. */
    function FindById(id: int): (r: Option<BookLending>)
      reads this
      requires Valid()
      ensures r.Some? <==> exists i :: 0 <= i < |lendings| && lendings[i].id == Some(id)
      ensures r.Some? ==> r.value in lendings && r.value.id == Some(id)
    {
      if 1 <= id <= |lendings| then Some(lendings[id - 1]) else None
    }

    /** `lendBook`: after the checks, the lending is stored under the next id. A book that was
        lent out here is lent afterwards, and no book has two open lendings. */
    method LendBook(lookup: Option<Book>, lending: BookLending, now: Timestamp) returns (r: Result<BookLending>)
      requires Valid()
      modifies this
      ensures Valid()
      ensures var v := ValidateLending(lookup, old(IsBookLent(lendings, lending.bookId)), lending, now);
        && (r.Success? <==> v.Success?)
        && (r.Failure? ==> r.error == v.error && lendings == old(lendings))
      ensures r.Success? ==>
        && r.value == lending.(id := Some(|old(lendings)| + 1))
        && lendings == old(lendings) + [r.value]
      ensures r.Success? && lending.IsActive() ==> IsBookLent(lendings, lending.bookId)
    {
      var lent := IsBookLent(lendings, lending.bookId);
      var ok := ValidateLending(lookup, lent, lending, now);
      if ok.Failure? {
        return ok.PropagateFailure();
      }
      var created := lending.(id := Some(|lendings| + 1));
      lendings := lendings + [created];
      r := Success(created);
      assert lendings[|lendings| - 1] == created;
    }

    /** `returnBook`: an unknown lending and one already returned are refused; otherwise the
        return date is written and nothing else changes, so the book is no longer lent. */
    method ReturnBook(lendingId: int, returnDate: Timestamp) returns (r: Result<BookLending>)
      requires Valid()
      modifies this
      ensures Valid()
      ensures old(FindById(lendingId)).None? ==>
        r == Failure(IllegalArgument("Lending record not found with id: " + IntToString(lendingId))) && lendings == old(lendings)
      ensures old(FindById(lendingId)).Some? && old(FindById(lendingId)).value.actualReturnDate.Some? ==>
        r == Failure(IllegalArgument("Book has already been returned")) && lendings == old(lendings)
      ensures r.Success? <==> old(FindById(lendingId)).Some? && old(FindById(lendingId)).value.IsActive()
      ensures r.Success? ==>
        && r.value == old(FindById(lendingId)).value.(actualReturnDate := Some(returnDate))
        && lendings == old(lendings)[lendingId - 1 := r.value]
        && !IsBookLent(lendings, r.value.bookId)
    {
      var found := FindById(lendingId);
      if found.None? {
        return Failure(IllegalArgument("Lending record not found with id: " + IntToString(lendingId)));
      }
      var lending := found.value;
      if lending.actualReturnDate.Some? {
        return Failure(IllegalArgument("Book has already been returned"));
      }
      var updated := lending.(actualReturnDate := Some(returnDate));
      ghost var before := lendings;
      lendings := lendings[lendingId - 1 := updated];
      forall i | 0 <= i < |lendings| && lendings[i].bookId == updated.bookId
        ensures !lendings[i].IsActive()
      {
        if i != lendingId - 1 {
          assert before[i].bookId == before[lendingId - 1].bookId;
          assert i < lendingId - 1 || lendingId - 1 < i;
        }
      }
      r := Success(updated);
    }
  }

  // ---------------------------------------------------------------------------------------
  // Service queries

  /** `getCurrentLending`: a missing book is refused. */
  function GetCurrentLending(lookup: Option<Book>, bookId: int, s: seq<BookLending>): (r: Result<Option<BookLending>>)
    ensures r.Success? <==> lookup.Some?
    ensures r.Success? ==> r.value == CurrentLending(s, bookId)
  {
    var _ :- ProgressService.ValidateBook(lookup, bookId);
    Success(CurrentLending(s, bookId))
  }

  /** `getLendingHistory`: a missing book is refused. */
  function GetLendingHistory(lookup: Option<Book>, bookId: int, s: seq<BookLending>): (r: Result<seq<BookLending>>)
    ensures r.Success? <==> lookup.Some?
    ensures r.Success? ==> forall l :: l in r.value <==> l in s && l.bookId == bookId
  {
    var _ :- ProgressService.ValidateBook(lookup, bookId);
    Success(History(s, bookId))
  }

  /** `isBookLent`: a missing book is refused. */
  function GetIsBookLent(lookup: Option<Book>, bookId: int, s: seq<BookLending>): (r: Result<bool>)
    ensures r.Success? <==> lookup.Some?
    ensures r.Success? ==> (r.value <==> exists l :: l in s && l.bookId == bookId && l.IsActive())
  {
    var _ :- ProgressService.ValidateBook(lookup, bookId);
    var lent := IsBookLent(s, bookId);
    assert lent ==> exists i :: 0 <= i < |s| && s[i].bookId == bookId && s[i].IsActive();
    Success(lent)
  }

  /** Whole days from lending to return (`ChronoUnit.DAYS.between`); an open lending adds 0. */
  function LendingDays(l: BookLending): int {
    if l.actualReturnDate.Some? then DaysBetween(l.lendingDate, l.actualReturnDate.value) else 0
  }

  /** `calculateAverageLendingDuration`: the mean lending length in days over the returned
      lendings, absent when none was returned. */
  function AverageLendingDuration(lendings: seq<BookLending>): (r: Option<real>)
    ensures r.None? <==> forall l :: l in lendings ==> l.IsActive()
  {
    var completed := Filter(lendings, (l: BookLending) => l.actualReturnDate.Some?);
    assert |completed| > 0 ==> completed[0] in completed;
    if |completed| == 0 then None
    else Some(SumOf(completed, LendingDays) as real / |completed| as real)
  }

  /** Returned lendings that came back no earlier than they left average a non-negative number
      of days. */
  lemma AverageLendingDurationNonNegative(lendings: seq<BookLending>)
    requires forall l :: l in lendings && l.actualReturnDate.Some? ==> l.lendingDate <= l.actualReturnDate.value
    ensures var a := AverageLendingDuration(lendings); a.Some? ==> a.value >= 0.0
  {
    var completed := Filter(lendings, (l: BookLending) => l.actualReturnDate.Some?);
    if |completed| > 0 {
      SumOfNonNegative(completed, LendingDays);
    }
  }

  lemma {:induction false} SumOfNonNegative<T>(s: seq<T>, f: T -> int)
    requires forall x :: x in s ==> f(x) >= 0
    ensures SumOf(s, f) >= 0
  {
    if s != [] {
      SumOfNonNegative(s[1..], f);
    }
  }

  /** The borrower names of the lendings, in order. */
  function Borrowers(lendings: seq<BookLending>): (r: seq<string>)
    ensures |r| == |lendings|
    ensures forall i :: 0 <= i < |r| ==> r[i] == lendings[i].borrowerName
  {
    seq(|lendings|, i requires 0 <= i < |lendings| => lendings[i].borrowerName)
  }

  /** `getLendingStats`: a missing book is refused; otherwise the statistics of its history. */
  function GetLendingStats(lookup: Option<Book>, bookId: int, s: seq<BookLending>, now: Timestamp): (r: Result<BookLendingStats>)
    ensures r.Success? <==> lookup.Some?
    ensures r.Failure? ==> r.error == IllegalArgument("Book not found with id: " + IntToString(bookId))
  {
    var _ :- ProgressService.ValidateBook(lookup, bookId);
    var lendings := History(s, bookId);
    Success(BookLendingStats(
      |lendings|,
      exists l :: l in lendings && l.IsActive(),
      AverageLendingDuration(lendings),
      Count(lendings, (l: BookLending) => l.IsOverdue(now)),
      |Distinct(Borrowers(lendings))|))
  }

  /** The statistics agree with one another: overdue lendings are among the open ones, so a
      book with one is currently lent; there are no more borrowers than lendings and at least
      one when there is a lending; an average exists exactly when some lending was returned. */
  lemma LendingStatsConsistent(lookup: Option<Book>, bookId: int, s: seq<BookLending>, now: Timestamp)
    requires lookup.Some?
    ensures var st := GetLendingStats(lookup, bookId, s, now).value;
      && st.totalLendings == |History(s, bookId)|
      && 0 <= st.overdueCount <= st.totalLendings
      && st.overdueCount <= |OpenLendings(s, bookId)|
      && (st.overdueCount > 0 ==> st.currentlyLent)
      && st.uniqueBorrowers <= st.totalLendings
      && (st.totalLendings > 0 ==> st.uniqueBorrowers >= 1)
      && (st.currentlyLent <==> IsBookLent(s, bookId))
      && (st.averageLendingDuration.None? <==> forall l :: l in s && l.bookId == bookId ==> l.IsActive())
  {
    var lendings := History(s, bookId);
    var st := GetLendingStats(lookup, bookId, s, now).value;
    var overdue := Filter(lendings, (l: BookLending) => l.IsOverdue(now));
    if st.overdueCount > 0 {
      assert overdue[0] in overdue;
    }
    forall l | l in s && l.bookId == bookId && l.IsOverdue(now)
      ensures l.bookId == bookId && l.IsActive()
    {
      OverdueOnlyWhenActive(l, now);
    }
    CountOfFilterBelow(s, (l: BookLending) => l.bookId == bookId, (l: BookLending) => l.IsOverdue(now),
                       (l: BookLending) => l.bookId == bookId && l.IsActive());
    if |lendings| > 0 {
      assert Borrowers(lendings)[0] in Distinct(Borrowers(lendings));
    }
    if IsBookLent(s, bookId) {
      var i :| 0 <= i < |s| && s[i].bookId == bookId && s[i].IsActive();
      assert s[i] in lendings;
    }
  }

  /** Under the one-open-lending invariant a book reports at most one overdue lending. */
  lemma OverdueAtMostOne(lookup: Option<Book>, bookId: int, s: seq<BookLending>, now: Timestamp)
    requires lookup.Some? && AtMostOneOpen(s)
    ensures GetLendingStats(lookup, bookId, s, now).value.overdueCount <= 1
  {
    LendingStatsConsistent(lookup, bookId, s, now);
    OpenAtMostOne(s, bookId);
  }

  /** The overdue count of the statistics is the number of the book's lendings among those
      the overdue query returns. */
  lemma OverdueCountMatchesOverdueQuery(lookup: Option<Book>, bookId: int, s: seq<BookLending>, now: Timestamp)
    requires lookup.Some?
    ensures GetLendingStats(lookup, bookId, s, now).value.overdueCount ==
            Count(OverdueLendings(s, now), (l: BookLending) => l.bookId == bookId)
  {
    CountOfFilter(s, (l: BookLending) => l.bookId == bookId, (l: BookLending) => l.IsOverdue(now),
                  (l: BookLending) => l.bookId == bookId && l.IsOverdue(now));
    CountOfFilter(s, (l: BookLending) => l.IsOverdue(now), (l: BookLending) => l.bookId == bookId,
                  (l: BookLending) => l.bookId == bookId && l.IsOverdue(now));
  }
}
