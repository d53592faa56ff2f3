/** The note service and the note repository queries it relies on: creating, updating and
    deleting notes, the page checks against the book, the range queries and the note
    statistics. Notes are kept in creation order, with strictly increasing ids. */
module NoteService {
  import opened Wrappers
  import opened Time
  import opened Text
  import opened Sequences
  import opened Books
  import opened Notes
  import ProgressService

  /** The note statistics of one book. */
  datatype BookNotesStats = BookNotesStats(
    totalNotes: int,
    notesWithPages: int,
    notesWithChapters: int,
    chaptersWithNotes: int,
    averageNotesLength: Option<real>)

  // ---------------------------------------------------------------------------------------
  // Checks

  /** `validatePageNumber`: a note's page may not lie beyond a known page count. */
  function ValidatePageNumber(book: Book, note: BookNote): (r: Result<()>)
    ensures r.Failure? <==> note.page.Some? && book.totalPages.Some? && note.page.value > book.totalPages.value
    ensures r.Failure? ==> r.error == IllegalArgument("Page number cannot be greater than total pages")
  {
    if note.page.Some? && book.totalPages.Some? && note.page.value > book.totalPages.value then
      Failure(IllegalArgument("Page number cannot be greater than total pages"))
    else Success(())
  }

  /** `validatePageRange`: with a known page count the range starts at a positive page and
      ends inside the book; without one anything passes. */
  function ValidatePageRange(book: Book, startPage: int, endPage: int): (r: Result<()>)
    ensures r.Success? <==> book.totalPages.None? || (startPage > 0 && endPage <= book.totalPages.value)
    ensures book.totalPages.Some? && startPage <= 0 ==> r == Failure(IllegalArgument("Start page must be positive"))
    ensures book.totalPages.Some? && startPage > 0 && endPage > book.totalPages.value ==>
      r == Failure(IllegalArgument("End page cannot be greater than total pages"))
  {
    if book.totalPages.None? then Success(())
    else if startPage <= 0 then Failure(IllegalArgument("Start page must be positive"))
    else if endPage > book.totalPages.value then Failure(IllegalArgument("End page cannot be greater than total pages"))
    else Success(())
  }

  // ---------------------------------------------------------------------------------------
  // The store

  /** Every note has an id, and ids increase along the sequence. */
  ghost predicate IdsIncreasing(s: seq<BookNote>, nextId: int) {
    && (forall i :: 0 <= i < |s| ==> s[i].id.Some? && s[i].id.value < nextId)
    && (forall i, j :: 0 <= i < j < |s| ==> s[i].id.value < s[j].id.value)
  }

  /** The position of the note with id `id`, or -1. */
  function IndexOfId(s: seq<BookNote>, id: int): (k: int)
    ensures -1 <= k < |s|
    ensures k >= 0 ==> s[k].id == Some(id)
    ensures k == -1 <==> forall i :: 0 <= i < |s| ==> s[i].id != Some(id)
  {
    if s == [] then -1
    else if s[|s| - 1].id == Some(id) then |s| - 1
    else IndexOfId(s[..|s| - 1], id)
  }

  /** Removing the note at `k` keeps the ids increasing and leaves no note with its id. */
  lemma RemoveKeepsIdsIncreasing(s: seq<BookNote>, nextId: int, k: int)
    requires IdsIncreasing(s, nextId) && 0 <= k < |s|
    ensures var t := s[..k] + s[k + 1..];
      && IdsIncreasing(t, nextId)
      && forall i :: 0 <= i < |t| ==> t[i].id != s[k].id
  {
    var t := s[..k] + s[k + 1..];
    assert forall i :: 0 <= i < |t| ==> t[i] == if i < k then s[i] else s[i + 1];
  }

  class NoteStore {
    var notes: seq<BookNote>
    var nextId: int

    ghost predicate Valid()
      reads this
    {
      nextId >= 1 && IdsIncreasing(notes, nextId)
    }

    constructor ()
      ensures Valid() && notes == []
    {
      notes := [];
      nextId := 1;
    }

    /** `findById`. */
    function FindById(id: int): (r: Option<BookNote>)
      reads this
      ensures r.Some? <==> exists i :: 0 <= i < |notes| && notes[i].id == Some(id)
      ensures r.Some? ==> r.value in notes && r.value.id == Some(id)
    {
      var k := IndexOfId(notes, id);
      if k < 0 then None else Some(notes[k])
    }

    /** `getNoteById`: a missing note is refused. */
    function GetNoteById(id: int): (r: Result<BookNote>)
      reads this
      ensures r.Success? <==> FindById(id).Some?
      ensures r.Success? ==> r.value.id == Some(id)
      ensures r.Failure? ==> r.error == IllegalArgument("Note not found with id: " + IntToString(id))
    {
      var found := FindById(id);
      if found.None? then Failure(IllegalArgument("Note not found with id: " + IntToString(id)))
      else Success(found.value)
    }

    /** `createNote`: the book must exist and the page lie inside it; the note is stored under
        a new id with both time stamps set to `now`. */
    method CreateNote(lookup: Option<Book>, note: BookNote, now: Timestamp) returns (r: Result<BookNote>)
      requires Valid()
      modifies this
      ensures Valid()
      ensures r.Success? <==> lookup.Some? && ValidatePageNumber(lookup.value, note).Success?
      ensures lookup.None? ==> r == Failure(IllegalArgument("Book not found with id: " + IntToString(note.bookId)))
      ensures r.Failure? ==> notes == old(notes)
      ensures r.Success? ==>
        && r.value == note.(id := Some(old(nextId)), createdAt := now, updatedAt := now)
        && notes == old(notes) + [r.value]
        && FindById(old(nextId)) == Some(r.value)
    {
      var book :- ProgressService.ValidateBook(lookup, note.bookId);
      var ok := ValidatePageNumber(book, note);
      if ok.Failure? {
        return ok.PropagateFailure();
      }
      var created := note.(id := Some(nextId), createdAt := now, updatedAt := now);
      notes := notes + [created];
      nextId := nextId + 1;
      r := Success(created);
      assert notes[|notes| - 1] == created;
    }

    /** `updateNote`: the book must exist, the note must carry an id of a stored note and its
        page must lie inside the book. The stored note takes the new content, page and chapter
        and `now` as update time, and keeps its book and creation time; the caller gets back
        its own note with the new update time. */
    method UpdateNote(lookup: Option<Book>, note: BookNote, now: Timestamp) returns (r: Result<BookNote>)
      requires Valid()
      modifies this
      ensures Valid()
      ensures r.Success? <==>
        && lookup.Some? && note.id.Some? && old(FindById(note.id.value)).Some?
        && ValidatePageNumber(lookup.value, note).Success?
      ensures lookup.None? ==> r == Failure(IllegalArgument("Book not found with id: " + IntToString(note.bookId)))
      ensures lookup.Some? && note.id.None? ==> r == Failure(NullPointer)
      ensures lookup.Some? && note.id.Some? && old(FindById(note.id.value)).None? ==>
        r == Failure(IllegalArgument("Note not found with id: " + IntToString(note.id.value)))
      ensures r.Failure? ==> notes == old(notes)
      ensures r.Success? ==>
        && r.value == note.(updatedAt := now)
        && var k := IndexOfId(old(notes), note.id.value);
           0 <= k && notes == old(notes)[k := old(notes)[k].(content := note.content, page := note.page,
                                                            chapter := note.chapter, updatedAt := now)]
      ensures nextId == old(nextId)
    {
      var book :- ProgressService.ValidateBook(lookup, note.bookId);
      if note.id.None? {
        return Failure(NullPointer);
      }
      var _ :- GetNoteById(note.id.value);
      var ok := ValidatePageNumber(book, note);
      if ok.Failure? {
        return ok.PropagateFailure();
      }
      var k := IndexOfId(notes, note.id.value);
      notes := notes[k := notes[k].(content := note.content, page := note.page, chapter := note.chapter, updatedAt := now)];
      r := Success(note.(updatedAt := now));
    }

    /** `deleteNote`: a missing note is refused; otherwise it is removed and the answer is
        true. */
    method DeleteNote(id: int) returns (r: Result<bool>)
      requires Valid()
      modifies this
      ensures Valid()
      ensures r.Success? <==> old(FindById(id)).Some?
      ensures r.Failure? ==> r.error == IllegalArgument("Note not found with id: " + IntToString(id)) && notes == old(notes)
      ensures r.Success? ==>
        && r.value
        && FindById(id).None?
        && var k := IndexOfId(old(notes), id); 0 <= k && notes == old(notes)[..k] + old(notes)[k + 1..]
      ensures nextId == old(nextId)
    {
      var _ :- GetNoteById(id);
      var k := IndexOfId(notes, id);
      RemoveKeepsIdsIncreasing(notes, nextId, k);
      notes := notes[..k] + notes[k + 1..];
      r := Success(true);
    }
  }

  // ---------------------------------------------------------------------------------------
  // Queries

  /** `getNotesForBook`: a missing book is refused. */
  function GetNotesForBook(lookup: Option<Book>, bookId: int, s: seq<BookNote>): (r: Result<seq<BookNote>>)
    ensures r.Success? <==> lookup.Some?
    ensures r.Success? ==> forall n :: n in r.value <==> n in s && n.bookId == bookId
  {
    var _ :- ProgressService.ValidateBook(lookup, bookId);
    Success(Filter(s, (n: BookNote) => n.bookId == bookId))
  }

  /** `getNotesByChapter`: a missing book is refused. */
  function GetNotesByChapter(lookup: Option<Book>, bookId: int, chapter: string, s: seq<BookNote>): (r: Result<seq<BookNote>>)
    ensures r.Success? <==> lookup.Some?
    ensures r.Success? ==> forall n :: n in r.value <==> n in s && n.bookId == bookId && n.chapter == Some(chapter)
  {
    var _ :- ProgressService.ValidateBook(lookup, bookId);
    Success(Filter(s, (n: BookNote) => n.bookId == bookId && n.chapter == Some(chapter)))
  }

  /** `getNotesByPageRange`: a missing book is refused, then a reversed range, then a range the
      book's known page count does not allow; otherwise the book's notes whose page lies in the
      range. */
  function GetNotesByPageRange(lookup: Option<Book>, bookId: int, startPage: int, endPage: int, s: seq<BookNote>): (r: Result<seq<BookNote>>)
    ensures r.Success? <==>
      lookup.Some? && startPage <= endPage && ValidatePageRange(lookup.value, startPage, endPage).Success?
    ensures lookup.Some? && startPage > endPage ==>
      r == Failure(IllegalArgument("Start page must be less than or equal to end page"))
    ensures r.Success? ==> forall n :: n in r.value <==>
      n in s && n.bookId == bookId && n.page.Some? && startPage <= n.page.value <= endPage
  {
    var book :- ProgressService.ValidateBook(lookup, bookId);
    if startPage > endPage then Failure(IllegalArgument("Start page must be less than or equal to end page"))
    else
      var _ :- ValidatePageRange(book, startPage, endPage);
      Success(Filter(s, (n: BookNote) => n.bookId == bookId && n.page.Some? && startPage <= n.page.value <= endPage))
  }

  /** A page-range answer for a book with a known page count only holds notes on its pages. */
  lemma PageRangeInsideBook(book: Book, startPage: int, endPage: int, s: seq<BookNote>)
    requires book.totalPages.Some? && book.id.Some?
    ensures var r := GetNotesByPageRange(Some(book), book.id.value, startPage, endPage, s);
      r.Success? ==> forall n :: n in r.value ==> 1 <= n.page.value <= book.totalPages.value
  {
  }

  /** `getNotesBetweenDates`: a reversed window is refused; otherwise the notes created inside
      it, both ends included. */
  function GetNotesBetweenDates(startDate: Timestamp, endDate: Timestamp, s: seq<BookNote>): (r: Result<seq<BookNote>>)
    ensures r.Success? <==> startDate <= endDate
    ensures r.Failure? ==> r.error == IllegalArgument("Start date must be before or equal to end date")
    ensures r.Success? ==> forall n :: n in r.value <==> n in s && startDate <= n.createdAt <= endDate
  {
    if startDate > endDate then Failure(IllegalArgument("Start date must be before or equal to end date"))
    else Success(Filter(s, (n: BookNote) => startDate <= n.createdAt <= endDate))
  }

  predicate HasPage(n: BookNote) { n.page.Some? }

  predicate HasChapter(n: BookNote) { n.chapter.Some? }

  function ContentLength(n: BookNote): int { |n.content| }

  /** `mapNotNull { it.chapter }`. */
  function Chapters(notes: seq<BookNote>): (r: seq<string>)
    ensures |r| == Count(notes, HasChapter)
    ensures forall c :: c in r <==> exists n :: n in notes && n.chapter == Some(c)
  {
    if notes == [] then []
    else
      var rest := Chapters(notes[1..]);
      assert forall n :: n in notes <==> n == notes[0] || n in notes[1..];
      if notes[0].chapter.Some? then [notes[0].chapter.value] + rest else rest
  }

  /** `getNotesStats`: a missing book is refused; otherwise the statistics of the book's notes. */
  function GetNotesStats(lookup: Option<Book>, bookId: int, s: seq<BookNote>): (r: Result<BookNotesStats>)
    ensures r.Success? <==> lookup.Some?
    ensures r.Failure? ==> r.error == IllegalArgument("Book not found with id: " + IntToString(bookId))
  {
    var notes :- GetNotesForBook(lookup, bookId, s);
    Success(BookNotesStats(
      |notes|,
      Count(notes, HasPage),
      Count(notes, HasChapter),
      |Distinct(Chapters(notes))|,
      if |notes| == 0 then None else Some(SumOf(notes, ContentLength) as real / |notes| as real)))
  }

  /** The counts nest: notes with pages or chapters are among all notes, and there are no
      more distinct chapters than notes with a chapter, but at least one when there is such a
      note. */
  lemma NotesStatsCountsNest(lookup: Option<Book>, bookId: int, s: seq<BookNote>)
    requires lookup.Some?
    ensures var st := GetNotesStats(lookup, bookId, s).value;
      && 0 <= st.notesWithPages <= st.totalNotes
      && 0 <= st.notesWithChapters <= st.totalNotes
      && st.chaptersWithNotes <= st.notesWithChapters
      && (st.notesWithChapters > 0 ==> st.chaptersWithNotes > 0)
  {
    var notes := GetNotesForBook(lookup, bookId, s).value;
    var chapters := Chapters(notes);
    if |chapters| > 0 {
      assert chapters[0] in Distinct(chapters);
    }
  }

  /** The average note length exists exactly when the book has notes, and is never negative. */
  lemma NotesAverageLength(lookup: Option<Book>, bookId: int, s: seq<BookNote>)
    requires lookup.Some?
    ensures var a := GetNotesStats(lookup, bookId, s).value.averageNotesLength;
      && (a.None? <==> forall n :: n in s ==> n.bookId != bookId)
      && (a.Some? ==> a.value >= 0.0)
  {
    var notes := GetNotesForBook(lookup, bookId, s).value;
    if |notes| > 0 {
      assert notes[0] in notes;
      ContentLengthsNonNegative(notes);
      assert SumOf(notes, ContentLength) as real / |notes| as real >= 0.0;
    } else {
      forall n | n in s
        ensures n.bookId != bookId
      {
        assert n !in notes;
      }
    }
  }

  lemma {:induction false} ContentLengthsNonNegative(notes: seq<BookNote>)
    ensures SumOf(notes, ContentLength) >= 0
  {
    if notes != [] {
      ContentLengthsNonNegative(notes[1..]);
    }
  }
}
