/** The in-memory parts of the reading-progress repository: the one-event-per-day selection
    applied to a book's events fetched oldest first, the average reading speed over a book's
    events fetched newest first, and the total of the recorded minutes. */
module ProgressRepository {
  import opened Wrappers
  import opened Time
  import opened Sequences
  import opened Progress

  /** The events of `rows` that fall on `day`, in order. */
  function OnDay(rows: seq<ReadingProgress>, day: Day): (r: seq<ReadingProgress>)
    ensures forall x :: x in r <==> x in rows && x.Date() == day
  {
    Filter(rows, (x: ReadingProgress) => x.Date() == day)
  }

  /** `getDailyProgress` after the query: the events grouped by calendar day, days in the order
      they first appear, each group represented by its first event with the greatest timestamp. */
  function DailyProgress(rows: seq<ReadingProgress>): (r: seq<ReadingProgress>)
    ensures |r| == |Distinct(Dates(rows))|
    ensures forall i :: 0 <= i < |r| ==> r[i].Date() == Distinct(Dates(rows))[i]
    ensures forall i :: 0 <= i < |r| ==> r[i] in rows
  {
    var days := Distinct(Dates(rows));
    seq(|days|, i requires 0 <= i < |days| => LatestOn(rows, days[i]))
  }

  /** The representative of `day`: the first of its events with the greatest timestamp. */
  function LatestOn(rows: seq<ReadingProgress>, day: Day): (r: ReadingProgress)
    requires day in Dates(rows)
    ensures r in rows && r.Date() == day
    ensures forall x :: x in rows && x.Date() == day ==> x.timestamp <= r.timestamp
  {
    var k :| 0 <= k < |rows| && Dates(rows)[k] == day;
    var group := OnDay(rows, day);
    assert rows[k] in group;
    var j := LatestIndex(group);
    assert group[j] in group;
    assert forall x :: x in group ==> x.timestamp <= group[j].timestamp by {
      forall x | x in group
        ensures x.timestamp <= group[j].timestamp
      {
        var i :| 0 <= i < |group| && group[i] == x;
      }
    }
    group[j]
  }

  /** The daily selection keeps exactly one event per reading day, the latest of that day, and
      over events fetched oldest first lists the days in increasing order. */
  lemma DailyProgressShape(rows: seq<ReadingProgress>)
    ensures var r := DailyProgress(rows);
      && Dates(r) == Distinct(Dates(rows))
      && NoDuplicates(Dates(r))
      && (forall x :: x in rows ==> x.Date() in Dates(r))
      && (forall i :: 0 <= i < |r| ==> forall x :: x in rows && x.Date() == r[i].Date() ==> x.timestamp <= r[i].timestamp)
      && (OldestFirst(rows) ==> StrictlyAscending(Dates(r)))
  {
    var r := DailyProgress(rows);
    var days := Distinct(Dates(rows));
    assert Dates(r) == days;
    forall x | x in rows
      ensures x.Date() in Dates(r)
    {
      var k :| 0 <= k < |rows| && rows[k] == x;
      assert Dates(rows)[k] == x.Date();
    }
    forall i | 0 <= i < |r|
      ensures forall x :: x in rows && x.Date() == r[i].Date() ==> x.timestamp <= r[i].timestamp
    {
      assert r[i] == LatestOn(rows, days[i]);
    }
    if OldestFirst(rows) {
      var d := Dates(rows);
      assert Ascending(d) by {
        forall i, j | 0 <= i < j < |d|
          ensures d[i] <= d[j]
        {
          DayOfMonotone(rows[i].timestamp, rows[j].timestamp);
        }
      }
      DistinctOfAscending(d);
    }
  }

  lemma DayOfMonotone(a: Timestamp, b: Timestamp)
    requires a <= b
    ensures DayOf(a) <= DayOf(b)
  {
  }

  // ---------------------------------------------------------------------------------------
  // Average reading speed

  /** Whether the pair ending at index `i` counts: the later-indexed event has minutes, and both
      its page gain over the event before it and its minutes are positive. */
  predicate Qualifies(rs: seq<ReadingProgress>, i: int)
    requires 1 <= i < |rs|
  {
    && rs[i].minutesRead.Some?
    && rs[i].currentPage - rs[i - 1].currentPage > 0
    && rs[i].minutesRead.value > 0
  }

  /** The page gains of the qualifying pairs among the first `n` events. */
  function PagesUpTo(rs: seq<ReadingProgress>, n: int): int
    requires 1 <= n <= |rs|
  {
    if n == 1 then 0
    else PagesUpTo(rs, n - 1) + (if Qualifies(rs, n - 1) then rs[n - 1].currentPage - rs[n - 2].currentPage else 0)
  }

  /** The minutes of the qualifying pairs among the first `n` events. */
  function MinutesUpTo(rs: seq<ReadingProgress>, n: int): int
    requires 1 <= n <= |rs|
  {
    if n == 1 then 0
    else MinutesUpTo(rs, n - 1) + (if Qualifies(rs, n - 1) then rs[n - 1].minutesRead.value else 0)
  }

  /** The pages per minute `getAverageReadingSpeed` reports. */
  function AverageSpeedOf(rs: seq<ReadingProgress>): Option<real> {
    if |rs| < 2 then None
    else if MinutesUpTo(rs, |rs|) > 0 then Some(PagesUpTo(rs, |rs|) as real / MinutesUpTo(rs, |rs|) as real)
    else None
  }

  /** `getAverageReadingSpeed`: walks the pairs of neighbouring events, skipping a pair whose
      later event has no minutes, and adds up the pairs with positive pages and minutes. */
  method GetAverageReadingSpeed(progressRecords: seq<ReadingProgress>) returns (speed: Option<real>)
    ensures speed == AverageSpeedOf(progressRecords)
  {
    if |progressRecords| < 2 {
      return None;
    }
    var totalPagesRead := 0;
    var totalMinutes := 0;
    for i := 1 to |progressRecords|
      invariant totalPagesRead == PagesUpTo(progressRecords, i)
      invariant totalMinutes == MinutesUpTo(progressRecords, i)
    {
      var current := progressRecords[i];
      var previous := progressRecords[i - 1];
      var pagesRead := current.currentPage - previous.currentPage;
      if current.minutesRead.None? {
        continue;
      }
      var minutesRead := current.minutesRead.value;
      if pagesRead > 0 && minutesRead > 0 {
        totalPagesRead := totalPagesRead + pagesRead;
        totalMinutes := totalMinutes + minutesRead;
      }
    }
    if totalMinutes > 0 {
      speed := Some(totalPagesRead as real / totalMinutes as real);
    } else {
      speed := None;
    }
  }

  /** Both totals grow together, by positive amounts, exactly at the qualifying pairs. */
  lemma {:induction false} TotalsGrowTogether(rs: seq<ReadingProgress>, n: int)
    requires 1 <= n <= |rs|
    ensures PagesUpTo(rs, n) >= 0 && MinutesUpTo(rs, n) >= 0
    ensures MinutesUpTo(rs, n) > 0 <==> PagesUpTo(rs, n) > 0
    ensures MinutesUpTo(rs, n) == 0 <==> forall i :: 1 <= i < n ==> !Qualifies(rs, i)
  {
    if n > 1 {
      TotalsGrowTogether(rs, n - 1);
    }
  }

  /** The speed is absent exactly when there are fewer than two events or no pair qualifies, and
      otherwise strictly positive. */
  lemma AverageSpeedPositive(rs: seq<ReadingProgress>)
    ensures AverageSpeedOf(rs).None? <==> |rs| < 2 || forall i :: 1 <= i < |rs| ==> !Qualifies(rs, i)
    ensures AverageSpeedOf(rs).Some? ==> AverageSpeedOf(rs).value > 0.0
  {
    if |rs| >= 2 {
      TotalsGrowTogether(rs, |rs|);
    }
  }

  /** Over events fetched newest first, a page count that never goes down over time gives no
      qualifying pair, so the speed is absent. */
  lemma ForwardReadingHasNoSpeed(rs: seq<ReadingProgress>)
    requires forall i :: 1 <= i < |rs| ==> rs[i].currentPage <= rs[i - 1].currentPage
    ensures AverageSpeedOf(rs).None?
  {
    AverageSpeedPositive(rs);
  }

  /** `getTotalMinutesRead`: the sum of the recorded minutes, 0 when none are recorded. */
  function TotalMinutesRead(rows: seq<ReadingProgress>): (n: int)
    ensures n == SumOf(rows, MinutesOf)
    ensures (forall i :: 0 <= i < |rows| ==> rows[i].minutesRead.None?) ==> n == 0
  {
    SkippingNullsKeepsSum(rows);
    NoMinutesSumToZero(rows);
    SumOf(Filter(rows, HasMinutes), MinutesOf)
  }

  lemma {:induction false} SkippingNullsKeepsSum(rows: seq<ReadingProgress>)
    ensures SumOf(Filter(rows, HasMinutes), MinutesOf) == SumOf(rows, MinutesOf)
  {
    if rows != [] {
      SkippingNullsKeepsSum(rows[1..]);
      if HasMinutes(rows[0]) {
        assert ([rows[0]] + Filter(rows[1..], HasMinutes))[1..] == Filter(rows[1..], HasMinutes);
      }
    }
  }

  lemma {:induction false} NoMinutesSumToZero(rows: seq<ReadingProgress>)
    ensures (forall i :: 0 <= i < |rows| ==> rows[i].minutesRead.None?) ==> SumOf(rows, MinutesOf) == 0
  {
    if rows != [] && forall i :: 0 <= i < |rows| ==> rows[i].minutesRead.None? {
      NoMinutesSumToZero(rows[1..]);
      assert forall i :: 0 <= i < |rows[1..]| ==> rows[1..][i] == rows[i + 1];
    }
  }
}
