/** A reading-progress event: the page a reader reached at an instant, with optional minutes. */
module Progress {
  import opened Wrappers
  import opened Time
  import opened Sequences

  datatype ReadingProgress = ReadingProgress(
    id: Option<int>,
    bookId: int,
    currentPage: int,
    timestamp: Timestamp,
    minutesRead: Option<int>,
    notes: Option<string>)
  {
    /** The calendar day of the event. */
    function Date(): Day {
      DayOf(timestamp)
    }

    /** Pages gained since `previous`, or since page 0 when there is none. The difference is not
        clamped: a page going back gives a negative value and an unchanged page gives 0. */
    function CalculateDailyProgress(previous: Option<ReadingProgress>): (n: int)
      ensures previous.None? ==> n == currentPage
      ensures previous.Some? ==> n + previous.value.currentPage == currentPage
      ensures previous.Some? ==> (n < 0 <==> currentPage < previous.value.currentPage)
      ensures previous.Some? ==> (n == 0 <==> currentPage == previous.value.currentPage)
    {
      if previous.Some? then currentPage - previous.value.currentPage else currentPage
    }
  }

  predicate HasMinutes(p: ReadingProgress) {
    p.minutesRead.Some?
  }

  function MinutesOf(p: ReadingProgress): int {
    if p.minutesRead.Some? then p.minutesRead.value else 0
  }

  /** The calendar day of every event, in list order. */
  function Dates(progress: seq<ReadingProgress>): (d: seq<Day>)
    ensures |d| == |progress|
    ensures forall i :: 0 <= i < |d| ==> d[i] == progress[i].Date()
  {
    seq(|progress|, i requires 0 <= i < |progress| => progress[i].Date())
  }

  /** The distinct reading days, earliest first. */
  function ReadingDays(progress: seq<ReadingProgress>): (d: seq<Day>)
    ensures StrictlyAscending(d)
    ensures forall day :: day in d <==> exists i :: 0 <= i < |progress| && progress[i].Date() == day
    ensures |d| <= |progress|
    ensures |d| == 0 <==> |progress| == 0
  {
    var dates := Dates(progress);
    var d := DistinctSorted(dates);
    assert forall day :: day in dates <==> exists i :: 0 <= i < |progress| && progress[i].Date() == day;
    assert |progress| > 0 ==> dates[0] in d;
    d
  }

  /** Whether the events are in increasing timestamp order (oldest first). */
  predicate OldestFirst(s: seq<ReadingProgress>) {
    forall i, j :: 0 <= i < j < |s| ==> s[i].timestamp <= s[j].timestamp
  }

  /** Whether the events are in decreasing timestamp order (newest first). */
  predicate NewestFirst(s: seq<ReadingProgress>) {
    forall i, j :: 0 <= i < j < |s| ==> s[i].timestamp >= s[j].timestamp
  }

  /** `maxBy { it.timestamp }`: the index of the first event with the greatest timestamp. */
  function LatestIndex(s: seq<ReadingProgress>): (j: int)
    requires |s| > 0
    ensures 0 <= j < |s|
    ensures forall i :: 0 <= i < |s| ==> s[i].timestamp <= s[j].timestamp
    ensures forall i :: 0 <= i < j ==> s[i].timestamp < s[j].timestamp
  {
    if |s| == 1 then 0
    else
      var j := LatestIndex(s[..|s| - 1]);
      if s[|s| - 1].timestamp > s[j].timestamp then |s| - 1 else j
  }

  /** The daily progress of every event of a chain, each measured against the one before it and
      the first against nothing, added up. */
  function ChainProgress(chain: seq<ReadingProgress>): int {
    if |chain| == 0 then 0
    else
      var n := |chain|;
      ChainProgress(chain[..n - 1]) + chain[n - 1].CalculateDailyProgress(if n == 1 then None else Some(chain[n - 2]))
  }

  /** The daily progress along a chain adds up to the page of its last event. */
  lemma {:induction false} ChainProgressTelescopes(chain: seq<ReadingProgress>)
    requires chain != []
    ensures ChainProgress(chain) == chain[|chain| - 1].currentPage
  {
    var n := |chain|;
    if n > 1 {
      var prefix := chain[..n - 1];
      ChainProgressTelescopes(prefix);
      assert prefix[|prefix| - 1] == chain[n - 2];
    }
  }
}

/** A lending of a book to a borrower; open until it has an actual return date. */
module Lendings {
  import opened Wrappers
  import opened Time

  datatype BookLending = BookLending(
    id: Option<int>,
    bookId: int,
    borrowerName: string,
    borrowerContact: string,
    lendingDate: Timestamp,
    expectedReturnDate: Timestamp,
    actualReturnDate: Option<Timestamp>,
    notes: Option<string>)
  {
    /** Not returned, and `now` is strictly after the expected return date. */
    predicate IsOverdue(now: Timestamp) {
      actualReturnDate.None? && now > expectedReturnDate
    }

    /** Not returned yet. */
    predicate IsActive() {
      actualReturnDate.None?
    }
  }

  /** Only an open lending can be overdue, and not before the expected return date has passed. */
  lemma OverdueOnlyWhenActive(l: BookLending, now: Timestamp)
    ensures l.IsOverdue(now) ==> l.IsActive()
    ensures l.actualReturnDate.Some? ==> !l.IsOverdue(now)
    ensures !l.IsOverdue(l.expectedReturnDate)
    ensures l.IsActive() <==> l.actualReturnDate.None?
  {
  }
}

/** A free-text note on a book, optionally tied to a page and a chapter. */
module Notes {
  import opened Wrappers
  import opened Time

  datatype BookNote = BookNote(
    id: Option<int>,
    bookId: int,
    content: string,
    page: Option<int>,
    chapter: Option<string>,
    createdAt: Timestamp,
    updatedAt: Timestamp)
}
